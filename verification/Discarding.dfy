/**
 Discarding a reversible first installation: delete exactly the paths the transaction
 created, deepest first, each only if it still is the object whose identity was durably
 recorded. Repeating the call after any number of power losses reaches the same tree.
 */
module Discarding {
  import opened Objects
  import opened PosixPaths
  import opened OwnedPaths
  import opened Tree
  import J = Journals
  import JournalStore

  const PRIVATE_ROOT: Path := [".local", "share", "clio-relay"]
  const SOURCE_ROOTS: set<Path> :=
    {[".local", "src", "clio-relay"], [".local", "src", "jarvis-util"], [".ppi-jarvis"]}
  const LAUNCHERS: set<Path> :=
    {[".local", "bin", "frpc"], [".local", "bin", "frps"], [".local", "bin", "uv"],
     [".local", "bin", "uvx"], [".local", "bin", "clio-relay"], [".local", "bin", "jarvis"]}

  /** The boundary: strictly below the private root, one of the exact roots, or an exact
      launcher that is a file or a link. */
  predicate RecoveryTarget(home: Path, item: Owned) {
    && Prefix(home, item.path)
    && var relative := item.path[|home|..];
       || (Prefix(PRIVATE_ROOT, relative) && relative != PRIVATE_ROOT)
       || relative in SOURCE_ROOTS
       || (relative in LAUNCHERS && (item.kind.OwnedFile? || item.kind.OwnedSymlink?))
  }

  function Observed(entry: Entry): Identity
    requires !entry.node.Special?
  {
    Identity(entry.device, entry.inode,
             if entry.node.Directory? then DirectoryType else if entry.node.Regular? then FileType else SymlinkType,
             entry.changed, entry.size,
             if entry.node.Directory? then None
             else Some(if entry.node.Regular? then entry.node.content else entry.node.target))
  }

  /** No component between home and the path is anything but a directory. */
  predicate Topology(files: Files, home: Path, path: Path) {
    forall k :: |home| < k < |path| && path[..k] in files ==> files[path[..k]].node.Directory?
  }

  /** The entry at an owned path is the object that was durably recorded, of the declared kind. */
  predicate Vouched(files: Files, item: Owned) {
    && item.path in files
    && !files[item.path].node.Special?
    && item.identity.Some?
    && IdentityMatches(item.identity.value, Observed(files[item.path]))
    && KindAccepts(item.kind, Observed(files[item.path]))
  }

  /** The whole condition under which one owned path can be discarded. */
  predicate Ready(files: Files, home: Path, item: Owned) {
    && RecoveryTarget(home, item)
    && Topology(files, home, item.path)
    && (item.path in files ==> Vouched(files, item) && NoSpecial(files, item.path))
  }

  predicate Discardable(files: Files, home: Path, items: seq<Owned>) {
    forall item :: item in items ==> Ready(files, home, item)
  }

  predicate DistinctPaths(items: seq<Owned>) {
    forall i, j :: 0 <= i < j < |items| ==> items[i].path != items[j].path
  }

  ghost function VouchedRoots(files: Files, items: seq<Owned>, depth: nat): set<Path> {
    set item | item in items && Vouched(files, item) && |item.path| >= depth :: item.path
  }

  /* ---------- these conditions, spelled out ---------- */

  /** Which paths may be discarded at all. */
  lemma BoundaryIff(home: Path, item: Owned)
    ensures RecoveryTarget(home, item) <==>
              && |home| <= |item.path| && item.path[..|home|] == home
              && var rest := item.path[|home|..];
                 || (|rest| > 3 && rest[0] == ".local" && rest[1] == "share" && rest[2] == "clio-relay")
                 || rest == [".local", "src", "clio-relay"]
                 || rest == [".local", "src", "jarvis-util"]
                 || rest == [".ppi-jarvis"]
                 || (&& |rest| == 3 && rest[0] == ".local" && rest[1] == "bin"
                     && rest[2] in ["frpc", "frps", "uv", "uvx", "clio-relay", "jarvis"]
                     && (item.kind.OwnedFile? || item.kind.OwnedSymlink?))
  {
    if Prefix(home, item.path) {
      RelativeIff(item.path[|home|..]);
    }
  }

  lemma RelativeIff(rest: Path)
    ensures Prefix(PRIVATE_ROOT, rest) && rest != PRIVATE_ROOT <==>
              |rest| > 3 && rest[0] == ".local" && rest[1] == "share" && rest[2] == "clio-relay"
    ensures rest in LAUNCHERS <==>
              && |rest| == 3 && rest[0] == ".local" && rest[1] == "bin"
              && rest[2] in ["frpc", "frps", "uv", "uvx", "clio-relay", "jarvis"]
  {
    if |rest| >= 3 {
      assert rest[..3] == [rest[0], rest[1], rest[2]];
      assert |rest| == 3 ==> rest == rest[..3];
    }
  }

  /** What is vouched for, field by field: the recorded device, inode and type, of the declared
      kind; for a file also its times, size and content, for a link its times, size and text. A
      directory may have changed in time and size. */
  lemma VouchedIff(files: Files, item: Owned)
    ensures Vouched(files, item) <==>
              && item.path in files && item.identity.Some?
              && var entry, record := files[item.path], item.identity.value;
                 && entry.device == record.device && entry.inode == record.inode
                 && match entry.node
                    case Directory => record.fileType.DirectoryType? && item.kind.OwnedDirectory?
                    case Regular(content) =>
                      && record.fileType.FileType? && (item.kind.OwnedFile? || item.kind.OwnedFileOrSymlink?)
                      && record.changed == entry.changed && record.size == entry.size && record.content == Some(content)
                    case SymbolicLink(target) =>
                      && record.fileType.SymlinkType? && (item.kind.OwnedSymlink? || item.kind.OwnedFileOrSymlink?)
                      && record.changed == entry.changed && record.size == entry.size && record.content == Some(target)
                    case Special => false
  {
  }

  /** An owned path is ready exactly when it is within the boundary, only directories lead to it,
      and what stands there, if anything, is vouched for and holds no special entry. */
  lemma ReadyIff(files: Files, home: Path, item: Owned)
    ensures Ready(files, home, item) <==>
              && RecoveryTarget(home, item)
              && (forall k :: |home| < k < |item.path| && item.path[..k] in files ==>
                    files[item.path[..k]].node.Directory?)
              && (item.path in files ==> Vouched(files, item))
              && (item.path in files ==>
                    forall p :: p in files && |p| >= |item.path| && p[..|item.path|] == item.path ==>
                      !files[p].node.Special?)
  {
  }

  /* ---------- deepest first ---------- */

  predicate DeepestFirst(items: seq<Owned>) {
    forall i, j :: 0 <= i < j < |items| ==> |items[i].path| >= |items[j].path|
  }

  function InsertByDepth(item: Owned, items: seq<Owned>): seq<Owned> {
    if items == [] || |item.path| >= |items[0].path| then [item] + items
    else [items[0]] + InsertByDepth(item, items[1..])
  }

  function SortByDepth(items: seq<Owned>): seq<Owned> {
    if items == [] then [] else InsertByDepth(items[0], SortByDepth(items[1..]))
  }

  lemma {:induction false} InsertKeepsItems(item: Owned, items: seq<Owned>)
    ensures multiset(InsertByDepth(item, items)) == multiset(items) + multiset{item}
    ensures forall x :: x in InsertByDepth(item, items) <==> x == item || x in items
  {
    if items != [] && |item.path| < |items[0].path| {
      InsertKeepsItems(item, items[1..]);
      assert items == [items[0]] + items[1..];
    }
  }

  lemma {:induction false} InsertKeepsOrder(item: Owned, items: seq<Owned>)
    requires DeepestFirst(items)
    ensures DeepestFirst(InsertByDepth(item, items))
  {
    if items != [] && |item.path| < |items[0].path| {
      var rest := InsertByDepth(item, items[1..]);
      InsertKeepsOrder(item, items[1..]);
      InsertKeepsItems(item, items[1..]);
      forall j | 0 <= j < |rest|
        ensures |items[0].path| >= |rest[j].path|
      {
        assert rest[j] in rest;
      }
    }
  }

  /** The order is deepest first and a permutation of the recorded paths. */
  lemma {:induction false} SortIsDeepestFirst(items: seq<Owned>)
    ensures DeepestFirst(SortByDepth(items))
    ensures multiset(SortByDepth(items)) == multiset(items)
    ensures forall x :: x in SortByDepth(items) <==> x in items
  {
    if items != [] {
      SortIsDeepestFirst(items[1..]);
      InsertKeepsOrder(items[0], SortByDepth(items[1..]));
      InsertKeepsItems(items[0], SortByDepth(items[1..]));
      assert items == [items[0]] + items[1..];
    }
  }

  lemma {:induction false} InsertKeepsDistinct(item: Owned, items: seq<Owned>)
    requires DistinctPaths(items) && forall x :: x in items ==> x.path != item.path
    ensures DistinctPaths(InsertByDepth(item, items))
  {
    if items == [] || |item.path| >= |items[0].path| {
      assert forall i :: 0 <= i < |items| ==> items[i] in items;
    } else {
      InsertKeepsDistinct(item, items[1..]);
      InsertKeepsItems(item, items[1..]);
      var rest := InsertByDepth(item, items[1..]);
      forall j | 0 <= j < |rest|
        ensures rest[j].path != items[0].path
      {
        assert rest[j] in rest;
        assert items[0] in items;
      }
    }
  }

  lemma {:induction false} SortKeepsDistinct(items: seq<Owned>)
    requires DistinctPaths(items)
    ensures DistinctPaths(SortByDepth(items))
  {
    if items != [] {
      SortKeepsDistinct(items[1..]);
      SortIsDeepestFirst(items[1..]);
      InsertKeepsDistinct(items[0], SortByDepth(items[1..]));
    }
  }

  /* ---------- readiness under partial deletion ---------- */

  /** Partial deletions never invalidate what was recorded: an item that was ready stays so. */
  lemma ReadyIsKept(before: Files, after: Files, roots: set<Path>, home: Path, item: Owned)
    requires Shrunk(before, after, roots) && Ready(before, home, item)
    ensures Ready(after, home, item)
  {
  }

  lemma VouchedWas(before: Files, after: Files, roots: set<Path>, item: Owned)
    requires Shrunk(before, after, roots) && Vouched(after, item)
    ensures Vouched(before, item)
  {
  }

  /** And deleting nothing shallower than an item that was not ready leaves it so. */
  lemma NotReadyIsKept(before: Files, after: Files, roots: set<Path>, home: Path, item: Owned)
    requires Shrunk(before, after, roots) && WellFormed(after) && !Ready(before, home, item)
    requires forall root :: root in roots ==> |root| >= |item.path|
    requires item.path in roots ==> Vouched(before, item)
    ensures !Ready(after, home, item)
  {
    if !RecoveryTarget(home, item) {
    } else if !Topology(before, home, item.path) {
      var k :| |home| < k < |item.path| && item.path[..k] in before && !before[item.path[..k]].node.Directory?;
      ShallowIsKept(roots, item.path[..k], |item.path|);
      assert item.path[..k] in after;
    } else if !NoSpecial(before, item.path) {
      var p :| p in before && Prefix(item.path, p) && before[p].node.Special?;
      assert p in after;
      AncestorIsPresent(after, p, |item.path|);
    } else {
      NotVouchedIsKept(before, after, roots, item);
    }
  }

  lemma ShallowIsKept(roots: set<Path>, path: Path, depth: nat)
    requires |path| < depth && forall root :: root in roots ==> |root| >= depth
    ensures !Below(roots, path)
  {
  }

  lemma NotVouchedIsKept(before: Files, after: Files, roots: set<Path>, item: Owned)
    requires Shrunk(before, after, roots) && item.path in before && !Vouched(before, item)
    requires forall root :: root in roots ==> |root| >= |item.path|
    requires item.path !in roots
    ensures item.path in after && !Vouched(after, item)
  {
    forall root | root in roots
      ensures !Prefix(root, item.path)
    {
      assert |root| == |item.path| ==> item.path[..|root|] == item.path;
    }
  }

  /* ---------- the program ---------- */

  /** Discard one owned path. */
  method DiscardOwned(disk: FileTree, home: Path, item: Owned) returns (outcome: Outcome)
    requires WellFormed(disk.files)
    modifies disk
    ensures WellFormed(disk.files) && Shrunk(old(disk.files), disk.files, {item.path})
    ensures outcome.Done? ==> Ready(old(disk.files), home, item) && item.path !in disk.files
    ensures outcome.Refused? ==> !Ready(old(disk.files), home, item)
    ensures !Vouched(old(disk.files), item) ==> disk.files == old(disk.files)
    ensures item.path in old(disk.files) && disk.files != old(disk.files) ==>
              && item.identity.Some?
              && var entry, record := old(disk.files)[item.path], item.identity.value;
                 && entry.device == record.device && entry.inode == record.inode
                 && (entry.node.Directory? <==> record.fileType.DirectoryType?)
                 && (entry.node.Regular? <==> record.fileType.FileType?)
                 && (!entry.node.Directory? ==> entry.changed == record.changed && entry.size == record.size)
                 && (entry.node.Regular? ==> record.content == Some(entry.node.content))
                 && (entry.node.SymbolicLink? ==> record.content == Some(entry.node.target))
    ensures item.path in old(disk.files) && item.identity.Some?
            && (old(disk.files)[item.path].device, old(disk.files)[item.path].inode)
               != (item.identity.value.device, item.identity.value.inode) ==>
              outcome.Refused? && disk.files == old(disk.files)
    ensures outcome.PowerLoss? ==> disk.power == 0 && item.path in disk.files && Vouched(old(disk.files), item)
    ensures Spent(old(disk.files), old(disk.power), disk.files, disk.power)
    ensures old(disk.power) >= |Subtree(old(disk.files), item.path)| ==>
              (if Ready(old(disk.files), home, item) then outcome.Done? else outcome.Refused?)
  {
    VouchedIff(disk.files, item);
    if !RecoveryTarget(home, item) || !Topology(disk.files, home, item.path) {
      return Refused;
    }
    if item.path !in disk.files {
      return Done;
    }
    if !Vouched(disk.files, item) {
      return Refused;
    }
    outcome := disk.RemoveEntry(item.path);
  }

  lemma ShrunkToMore(before: Files, after: Files, roots: set<Path>, wider: set<Path>)
    requires Shrunk(before, after, roots) && roots <= wider
    ensures Shrunk(before, after, wider)
  {
    forall p | p in before && Below(roots, p)
      ensures Below(wider, p)
    {
    }
  }

  /** The list a run works through. */
  predicate Agenda(ordered: seq<Owned>) { DeepestFirst(ordered) && DistinctPaths(ordered) }

  /** Where a run stands that has dealt with the first `i` items. */
  ghost predicate Standing(start: Files, now: Files, home: Path, ordered: seq<Owned>, i: nat, outcome: Outcome) {
    && i <= |ordered|
    && WellFormed(now)
    && Shrunk(start, now, VouchedRoots(start, ordered[..i], 0))
    && (forall k :: 0 <= k < i ==>
          (k < i - 1 || outcome.Done?) ==> Ready(start, home, ordered[k]) && ordered[k].path !in now)
    && (!outcome.Done? ==> i > 0)
    && (outcome.Refused? ==> !Ready(start, home, ordered[i - 1]))
    && (outcome.PowerLoss? ==> Vouched(start, ordered[i - 1]) && ordered[i - 1].path in now)
  }

  lemma RootsAreDeep(start: Files, ordered: seq<Owned>, i: nat, k: nat)
    requires Agenda(ordered) && i <= k + 1 <= |ordered|
    ensures forall root :: root in VouchedRoots(start, ordered[..i], 0) ==> |root| >= |ordered[k].path|
    ensures ordered[k].path in VouchedRoots(start, ordered[..i], 0) ==> i == k + 1 && Vouched(start, ordered[k])
  {
    var roots := VouchedRoots(start, ordered[..i], 0);
    forall root | root in roots
      ensures |root| >= |ordered[k].path|
      ensures root == ordered[k].path ==> i == k + 1 && Vouched(start, ordered[k])
    {
      var item :| item in ordered[..i] && Vouched(start, item) && item.path == root;
      var j :| 0 <= j < i && ordered[..i][j] == item;
      assert ordered[j] == item;
    }
  }

  /** An item not yet dealt with is ready now exactly if it was ready at the start. */
  lemma NextIsAsBefore(start: Files, now: Files, home: Path, ordered: seq<Owned>, i: nat)
    requires Agenda(ordered) && i < |ordered| && Standing(start, now, home, ordered, i, Done)
    ensures Ready(now, home, ordered[i]) <==> Ready(start, home, ordered[i])
  {
    var roots := VouchedRoots(start, ordered[..i], 0);
    RootsAreDeep(start, ordered, i, i);
    if Ready(start, home, ordered[i]) {
      ReadyIsKept(start, now, roots, home, ordered[i]);
    } else {
      NotReadyIsKept(start, now, roots, home, ordered[i]);
    }
  }

  lemma RootsGrow(start: Files, before: Files, after: Files, ordered: seq<Owned>, i: nat)
    requires i < |ordered|
    requires Shrunk(start, before, VouchedRoots(start, ordered[..i], 0))
    requires Shrunk(before, after, {ordered[i].path})
    requires !Vouched(before, ordered[i]) ==> after == before
    ensures Shrunk(start, after, VouchedRoots(start, ordered[..i + 1], 0))
  {
    var roots, wider := VouchedRoots(start, ordered[..i], 0), VouchedRoots(start, ordered[..i + 1], 0);
    assert ordered[..i + 1] == ordered[..i] + [ordered[i]];
    ShrunkToMore(start, before, roots, wider);
    if Vouched(before, ordered[i]) {
      VouchedWas(start, before, roots, ordered[i]);
      assert ordered[i] in ordered[..i + 1];
      ShrunkToMore(before, after, {ordered[i].path}, wider);
      ShrunkIsTransitive(start, before, after, wider);
    }
  }

  lemma StandingMoves(
    start: Files, before: Files, after: Files, home: Path, ordered: seq<Owned>, i: nat, outcome: Outcome)
    requires Agenda(ordered) && i < |ordered| && Standing(start, before, home, ordered, i, Done)
    requires WellFormed(after) && Shrunk(before, after, {ordered[i].path})
    requires outcome.Done? ==> Ready(before, home, ordered[i]) && ordered[i].path !in after
    requires outcome.Refused? ==> !Ready(before, home, ordered[i])
    requires !Vouched(before, ordered[i]) ==> after == before
    requires outcome.PowerLoss? ==> Vouched(before, ordered[i]) && ordered[i].path in after
    ensures Standing(start, after, home, ordered, i + 1, outcome)
  {
    if outcome.PowerLoss? {
      VouchedWas(start, before, VouchedRoots(start, ordered[..i], 0), ordered[i]);
    }
    NextIsAsBefore(start, before, home, ordered, i);
    RootsGrow(start, before, after, ordered, i);
    forall k | 0 <= k < i
      ensures ordered[k].path !in after
    {
      assert ordered[k].path !in before;
    }
  }

  /** The entries a run may delete. */
  ghost function Doomed(files: Files, items: seq<Owned>): set<Path> {
    Covered(files, VouchedRoots(files, items, 0))
  }

  lemma InterruptedIsCounted(start: Files, now: Files, items: seq<Owned>, item: Owned)
    requires Shrunk(start, now, VouchedRoots(start, items, 0))
    requires item in items && Vouched(start, item) && item.path in now
    ensures |start| - |now| < |Doomed(start, items)|
  {
    assert item.path in VouchedRoots(start, items, 0) && Prefix(item.path, item.path);
    LeftoverIsCounted(start, now, VouchedRoots(start, items, 0), item.path);
  }

  /** What a run has done when it ends, in terms of the recorded paths. */
  lemma Concluded(
    start: Files, now: Files, home: Path, items: seq<Owned>, ordered: seq<Owned>, i: nat, outcome: Outcome)
    requires Agenda(ordered) && forall x :: x in ordered <==> x in items
    requires Standing(start, now, home, ordered, i, outcome) && (outcome.Done? ==> i == |ordered|)
    ensures Shrunk(start, now, VouchedRoots(start, items, 0))
    ensures forall item :: item in items && !Ready(start, home, item) ==>
              Shrunk(start, now, VouchedRoots(start, items, |item.path|)) && !Ready(now, home, item)
    ensures Discardable(now, home, items) <==> Discardable(start, home, items)
    ensures outcome.Done? ==> Discardable(start, home, items) && forall item :: item in items ==> item.path !in now
    ensures outcome.Refused? ==> !Discardable(start, home, items)
    ensures outcome.PowerLoss? ==> |start| - |now| < |Doomed(start, items)|
  {
    var roots := VouchedRoots(start, ordered[..i], 0);
    assert forall x :: x in ordered[..i] ==> x in items;
    ShrunkToMore(start, now, roots, VouchedRoots(start, items, 0));
    if outcome.PowerLoss? {
      assert ordered[i - 1] in ordered;
      InterruptedIsCounted(start, now, items, ordered[i - 1]);
    }
    forall item | item in items && !Ready(start, home, item)
      ensures Shrunk(start, now, VouchedRoots(start, items, |item.path|)) && !Ready(now, home, item)
    {
      var k :| 0 <= k < |ordered| && ordered[k] == item;
      RootsAreDeep(start, ordered, i, k);
      ShrunkToMore(start, now, roots, VouchedRoots(start, items, |item.path|));
      NotReadyIsKept(start, now, roots, home, item);
    }
    if Discardable(start, home, items) {
      forall item | item in items
        ensures Ready(now, home, item)
      {
        ReadyIsKept(start, now, roots, home, item);
      }
    }
  }

  /** Discard every owned path, deepest first. Nothing is deleted but what stands at or below a
      path whose recorded identity matches; an item that cannot be discarded stops the run
      before anything shallower than it is touched; and whether the whole can be discarded is
      the same before and after, however far the run came. */
  method DiscardAll(disk: FileTree, home: Path, items: seq<Owned>) returns (outcome: Outcome)
    requires WellFormed(disk.files) && DistinctPaths(items)
    modifies disk
    ensures WellFormed(disk.files)
    ensures Shrunk(old(disk.files), disk.files, VouchedRoots(old(disk.files), items, 0))
    ensures forall item :: item in items && !Ready(old(disk.files), home, item) ==>
              Shrunk(old(disk.files), disk.files, VouchedRoots(old(disk.files), items, |item.path|))
    ensures Discardable(disk.files, home, items) <==> Discardable(old(disk.files), home, items)
    ensures outcome.Done? ==> Discardable(disk.files, home, items)
                              && forall item :: item in items ==> item.path !in disk.files
    ensures outcome.Refused? ==> !Discardable(disk.files, home, items)
    ensures Spent(old(disk.files), old(disk.power), disk.files, disk.power)
    ensures old(disk.power) >= |Doomed(old(disk.files), items)| ==>
              (if Discardable(old(disk.files), home, items) then outcome.Done? else outcome.Refused?)
  {
    var ordered := SortByDepth(items);
    SortIsDeepestFirst(items);
    SortKeepsDistinct(items);
    ghost var start := disk.files;
    outcome := Done;
    var i := 0;
    while i < |ordered| && outcome.Done?
      invariant Standing(start, disk.files, home, ordered, i, outcome)
      invariant outcome.PowerLoss? ==> disk.power == 0
      invariant Spent(start, old(disk.power), disk.files, disk.power)
    {
      ghost var before := disk.files;
      assert ordered[i] in items;
      outcome := DiscardOwned(disk, home, ordered[i]);
      StandingMoves(start, before, disk.files, home, ordered, i, outcome);
      i := i + 1;
    }
    Concluded(start, disk.files, home, items, ordered, i, outcome);
  }

  ghost function OwnedRoots(items: seq<Owned>): set<Path> {
    set item | item in items :: item.path
  }

  /** What any number of interrupted calls have come to. */
  ghost predicate Settling(start: Files, now: Files, home: Path, items: seq<Owned>, outcome: Outcome) {
    && WellFormed(now)
    && Shrunk(start, now, VouchedRoots(start, items, 0))
    && (Discardable(now, home, items) <==> Discardable(start, home, items))
    && (outcome.Done? ==> Discardable(start, home, items) && forall item :: item in items ==> item.path !in now)
    && (outcome.Refused? ==> !Discardable(start, home, items))
  }

  /** Repeat the call after each of any number of power losses. One call with power for what may
      be deleted ends it, with success if and only if everything could be discarded; and success
      leaves the original tree minus the subtrees at owned paths. */
  method DiscardAfterCrashes(disk: FileTree, home: Path, items: seq<Owned>, powers: seq<nat>)
    returns (outcome: Outcome)
    requires WellFormed(disk.files) && DistinctPaths(items)
    modifies disk
    ensures WellFormed(disk.files)
    ensures Shrunk(old(disk.files), disk.files, VouchedRoots(old(disk.files), items, 0))
    ensures outcome.Done? ==> Discardable(old(disk.files), home, items)
    ensures outcome.Done? ==>
              && (forall p :: p in disk.files <==> p in old(disk.files) && !Below(OwnedRoots(items), p))
              && (forall p :: p in disk.files ==> SameEntry(old(disk.files)[p], disk.files[p]))
    ensures outcome.Refused? ==> !Discardable(old(disk.files), home, items)
    ensures outcome.PowerLoss? ==> Starved(powers, |powers|, |Doomed(old(disk.files), items)|)
  {
    ghost var start := disk.files;
    ghost var needs := |Doomed(start, items)|;
    outcome := PowerLoss;
    var i := 0;
    while i < |powers| && outcome.PowerLoss?
      invariant 0 <= i <= |powers|
      invariant Settling(start, disk.files, home, items, outcome)
      invariant outcome.PowerLoss? ==> Starved(powers, i, needs)
    {
      outcome := DiscardAgain(disk, home, items, powers[i], start, needs);
      if outcome.PowerLoss? {
        StillStarved(powers, i, needs);
      }
      i := i + 1;
    }
    if outcome.Done? {
      WhatIsLeft(start, disk.files, home, items);
    }
  }

  /** One more call, on what the earlier ones left of `start`. */
  method DiscardAgain(disk: FileTree, home: Path, items: seq<Owned>, power: nat, ghost start: Files, ghost needs: nat)
    returns (outcome: Outcome)
    requires DistinctPaths(items) && Settling(start, disk.files, home, items, PowerLoss)
    requires needs == |Doomed(start, items)|
    modifies disk
    ensures Settling(start, disk.files, home, items, outcome)
    ensures outcome.PowerLoss? ==> power < needs
  {
    ghost var before := disk.files;
    DoomedShrinks(start, before, items);
    disk.power := power;
    outcome := DiscardAll(disk, home, items);
    CallsCompose(start, before, disk.files, items);
  }

  lemma WhatIsLeft(start: Files, now: Files, home: Path, items: seq<Owned>)
    requires Settling(start, now, home, items, Done)
    ensures forall p :: p in now <==> p in start && !Below(OwnedRoots(items), p)
    ensures forall p :: p in now ==> SameEntry(start[p], now[p])
  {
    ShrunkToMore(start, now, VouchedRoots(start, items, 0), OwnedRoots(items));
    ShrunkToTheRest(start, now, OwnedRoots(items));
  }

  lemma DoomedShrinks(start: Files, before: Files, items: seq<Owned>)
    requires Shrunk(start, before, VouchedRoots(start, items, 0))
    ensures |Doomed(before, items)| <= |Doomed(start, items)|
  {
    forall item | item in items && Vouched(before, item)
      ensures Vouched(start, item)
    {
      VouchedWas(start, before, VouchedRoots(start, items, 0), item);
    }
    assert VouchedRoots(before, items, 0) <= VouchedRoots(start, items, 0);
    SubsetIsNoLarger(Doomed(before, items), Doomed(start, items));
  }

  lemma CallsCompose(start: Files, before: Files, after: Files, items: seq<Owned>)
    requires Shrunk(start, before, VouchedRoots(start, items, 0))
    requires Shrunk(before, after, VouchedRoots(before, items, 0))
    ensures Shrunk(start, after, VouchedRoots(start, items, 0))
  {
    var roots := VouchedRoots(start, items, 0);
    forall item | item in items && Vouched(before, item)
      ensures Vouched(start, item)
    {
      VouchedWas(start, before, roots, item);
    }
    ShrunkToMore(before, after, VouchedRoots(before, items, 0), roots);
    ShrunkIsTransitive(start, before, after, roots);
  }

  /** A full transaction that has not crossed its boundary. */
  predicate Revocable(j: J.Journal) {
    J.Loads(J.DependencyFree, j) && j.mode == J.Full && J.RecoveryMode(j) == J.Discard
  }

  /** These are the journals whose discard survives, and this is what they become. */
  lemma RevocableIff(j: J.Journal)
    ensures J.Apply(J.DependencyFree, j, J.DiscardOwned) ==
              if Revocable(j) then Some(j.(recoveredFrom := Some(j.state), state := J.Recovered)) else None
  {
  }

  /** The journal action: only a reversible full transaction is discarded, and the journal says
      so only after every owned path is gone. `items` lists the journal's owned paths. */
  method DiscardFullTransaction(
    file: JournalStore.JournalFile, disk: FileTree, home: Path, items: seq<Owned>)
    returns (outcome: Outcome)
    requires WellFormed(disk.files) && DistinctPaths(items)
    requires forall item :: item in items <==> item in file.stored.owned.Values
    modifies file, disk
    ensures WellFormed(disk.files)
    ensures Shrunk(old(disk.files), disk.files, VouchedRoots(old(disk.files), items, 0))
    ensures !Revocable(old(file.stored)) ==> outcome.Refused? && disk.files == old(disk.files)
    ensures outcome.Refused? ==> !(Revocable(old(file.stored)) && Discardable(old(disk.files), home, items))
    ensures old(disk.power) >= |Doomed(old(disk.files), items)| ==>
              (if Revocable(old(file.stored)) && Discardable(old(disk.files), home, items)
               then outcome.Done? else outcome.Refused?)
    ensures outcome.Done? ==>
              && file.stored == old(file.stored).(recoveredFrom := Some(old(file.stored).state), state := J.Recovered)
              && Discardable(old(disk.files), home, items)
              && forall p :: p in disk.files <==> p in old(disk.files) && !Below(OwnedRoots(items), p)
    ensures !outcome.Done? ==> file.stored == old(file.stored)
  {
    var value := file.stored;
    if !Revocable(value) {
      return Refused;
    }
    ghost var start := disk.files;
    outcome := DiscardAll(disk, home, items);
    if outcome.Done? {
      WhatIsLeft(start, disk.files, home, items);
      file.stored := value.(recoveredFrom := Some(value.state), state := J.Recovered);
    }
  }

  /** What is checked before a declared path is created. */
  predicate Creatable(j: J.Journal, files: Files, home: Path, name: string) {
    && J.Loads(J.DependencyFree, j) && !J.Terminal(j.state) && name in j.owned
    && var item := j.owned[name];
       && item.identity.None? && RecoveryTarget(home, item) && item.path != []
       && Parent(item.path) in files && files[Parent(item.path)].node.Directory?
       && item.path !in files
  }

  /** Create one declared path and bind its identity. Creation comes first, then the check of
      the kind, then the journal: a wrong kind or a power loss between the steps leaves an entry
      that no later call will discard. */
  method CreateAndRecordOwnedPath(
    file: JournalStore.JournalFile, disk: FileTree, home: Path, name: string, entry: Entry)
    returns (outcome: Outcome)
    requires WellFormed(disk.files) && !entry.node.Special?
    modifies file, disk
    ensures WellFormed(disk.files)
    ensures !old(Creatable(file.stored, disk.files, home, name)) ==>
              outcome.Refused? && file.stored == old(file.stored) && disk.files == old(disk.files)
    ensures old(Creatable(file.stored, disk.files, home, name)) ==>
              var item := old(file.stored).owned[name];
              if old(disk.power) == 0 then outcome.PowerLoss? && disk.files == old(disk.files)
              else
                && disk.files == old(disk.files)[item.path := entry]
                && outcome == if !KindAccepts(item.kind, Observed(entry)) then Refused
                              else if old(disk.power) == 1 then PowerLoss else Done
    ensures outcome.Done? ==>
              && Some(file.stored) == J.Apply(J.DependencyFree, old(file.stored), J.RecordOwned(name, Observed(entry)))
              && Ready(disk.files, home, file.stored.owned[name])
    ensures !outcome.Done? ==> file.stored == old(file.stored)
    ensures old(Creatable(file.stored, disk.files, home, name)) && !outcome.Done? ==>
              (Ready(disk.files, home, file.stored.owned[name]) <==> disk.files == old(disk.files))
  {
    var value := file.stored;
    if !Creatable(value, disk.files, home, name) {
      return Refused;
    }
    var item := value.owned[name];
    AncestorsAreDirectories(disk.files, home, item.path);
    if disk.power == 0 {
      return PowerLoss;
    }
    ghost var was := disk.files;
    disk.power := disk.power - 1;
    disk.files := disk.files[item.path := entry];
    CreatedIsReadyIff(was, disk.files, home, item, entry);
    if !KindAccepts(item.kind, Observed(entry)) {
      return Refused;
    }
    if disk.power == 0 {
      return PowerLoss;
    }
    RecordIsAccepted(value, name, Observed(entry));
    file.stored := Recorded(value, name, Observed(entry));
    outcome := Done;
  }

  function Recorded(j: J.Journal, name: string, observed: Identity): J.Journal
    requires name in j.owned
  {
    j.(owned := j.owned[name := j.owned[name].(identity := Some(observed))])
  }

  lemma RecordIsAccepted(j: J.Journal, name: string, observed: Identity)
    requires J.Loads(J.DependencyFree, j) && !J.Terminal(j.state) && name in j.owned
    requires j.owned[name].identity.None? && KindAccepts(j.owned[name].kind, observed)
    requires observed.content.None? <==> observed.fileType.DirectoryType?
    ensures J.Apply(J.DependencyFree, j, J.RecordOwned(name, observed)) == Some(Recorded(j, name, observed))
  {
    var j' := Recorded(j, name, observed);
    assert j'.owned.Keys == j.owned.Keys;
    SameSize(j.owned, j'.owned);
    assert J.OwnedAccepted(J.DependencyFree, j'.owned);
  }

  lemma SameSize(a: map<string, Owned>, b: map<string, Owned>)
    requires a.Keys == b.Keys
    ensures |a| == |b|
  {
    assert |a| == |a.Keys| && |b| == |b.Keys|;
  }

  lemma AncestorsAreDirectories(files: Files, home: Path, path: Path)
    requires WellFormed(files) && path != [] && Parent(path) in files && files[Parent(path)].node.Directory?
    ensures Topology(files, home, path)
  {
    forall k | |home| < k < |path| && path[..k] in files
      ensures files[path[..k]].node.Directory?
    {
      AncestorIsPresent(files, Parent(path), k);
      assert Parent(path)[..k] == path[..k];
    }
  }

  lemma CreatedIsReadyIff(was: Files, files: Files, home: Path, item: Owned, entry: Entry)
    requires WellFormed(was) && RecoveryTarget(home, item) && item.path != [] && item.path !in was
    requires Parent(item.path) in was && was[Parent(item.path)].node.Directory?
    requires !entry.node.Special? && files == was[item.path := entry]
    ensures WellFormed(files)
    ensures Ready(files, home, item.(identity := Some(Observed(entry)))) <==> KindAccepts(item.kind, Observed(entry))
    ensures !Ready(files, home, item.(identity := None))
  {
    forall p | p in files && Prefix(item.path, p)
      ensures p == item.path
    {
      if p != item.path {
        NotBelowAbsent(was, p, item.path);
      }
    }
    forall p | p in files && p != []
      ensures Parent(p) in files && files[Parent(p)].node.Directory?
    {
      if p != item.path {
        NotBelowAbsent(was, p, item.path);
        assert Prefix(Parent(p), p);
      }
    }
    AncestorsAreDirectories(was, home, item.path);
    assert forall k :: 0 <= k < |item.path| ==> item.path[..k] != item.path;
  }
}
