/**
 A file tree and its piecemeal, crash-prone deletion. Every unlink or rmdir is one durable
 step; it may change the size and times of the directory it happens in; and power may be
 lost before any of them.
 */
module Tree {
  import opened Objects
  import opened PosixPaths

  datatype Node = Directory | Regular(content: string) | SymbolicLink(target: string) | Special

  datatype Entry = Entry(device: nat, inode: nat, node: Node, changed: nat, size: nat)

  type Files = map<Path, Entry>

  datatype Outcome = Done | Refused | PowerLoss

  predicate Prefix(a: Path, b: Path) { |a| <= |b| && b[..|a|] == a }

  function Parent(path: Path): Path
    requires path != []
  {
    path[..|path| - 1]
  }

  /** Every entry stands in a directory of the tree. */
  predicate WellFormed(files: Files) {
    forall p :: p in files && p != [] ==> Parent(p) in files && files[Parent(p)].node.Directory?
  }

  predicate Below(roots: set<Path>, path: Path) { exists root :: root in roots && Prefix(root, path) }

  /** The same object as far as a deletion nearby leaves it: a directory keeps its device,
      inode and type; anything else is untouched. */
  predicate SameEntry(a: Entry, b: Entry) {
    a.device == b.device && a.inode == b.inode && a.node == b.node && (!a.node.Directory? ==> a == b)
  }

  /** `after` is what some deletions at or below `roots` leave of `before`: everything else is
      still there, and no device, socket or fifo was ever deleted. */
  predicate Shrunk(before: Files, after: Files, roots: set<Path>) {
    && after.Keys <= before.Keys
    && (forall p :: p in after ==> SameEntry(before[p], after[p]))
    && (forall p :: p in before && (!Below(roots, p) || before[p].node.Special?) ==> p in after)
  }

  lemma ShrunkIsTransitive(a: Files, b: Files, c: Files, roots: set<Path>)
    requires Shrunk(a, b, roots) && Shrunk(b, c, roots)
    ensures Shrunk(a, c, roots)
  {
  }

  lemma ShrunkWidens(a: Files, b: Files, root: Path, roots: set<Path>)
    requires Shrunk(a, b, {root}) && Below(roots, root)
    ensures Shrunk(a, b, roots)
  {
    forall p | p in a && Below({root}, p)
      ensures Below(roots, p)
    {
      var wide :| wide in roots && Prefix(wide, root);
      assert p[..|wide|] == p[..|root|][..|wide|];
      assert Prefix(wide, p);
    }
  }

  lemma {:induction false} AncestorIsPresent(files: Files, path: Path, k: nat)
    requires WellFormed(files) && path in files && k <= |path|
    ensures path[..k] in files
    ensures k < |path| ==> files[path[..k]].node.Directory?
    decreases |path| - k
  {
    if k == |path| {
      assert path[..k] == path;
    } else {
      AncestorIsPresent(files, path, k + 1);
      assert Parent(path[..k + 1]) == path[..k];
    }
  }

  /** When the roots are gone, what is left is exactly what was not at or below a root. */
  lemma ShrunkToTheRest(before: Files, after: Files, roots: set<Path>)
    requires Shrunk(before, after, roots) && WellFormed(after)
    requires forall root :: root in roots ==> root !in after
    ensures forall p :: p in after <==> p in before && !Below(roots, p)
  {
    forall p | p in after
      ensures !Below(roots, p)
    {
      forall root | root in roots
        ensures !Prefix(root, p)
      {
        NotBelowAbsent(after, p, root);
      }
    }
  }

  lemma NotBelowAbsent(files: Files, path: Path, root: Path)
    requires WellFormed(files) && path in files && root !in files
    ensures !Prefix(root, path)
  {
    if Prefix(root, path) {
      AncestorIsPresent(files, path, |root|);
    }
  }

  function Subtree(files: Files, path: Path): set<Path> {
    set p | p in files && Prefix(path, p)
  }

  predicate NoSpecial(files: Files, path: Path) {
    forall p :: p in files && Prefix(path, p) ==> !files[p].node.Special?
  }

  lemma ChildIsSmaller(files: Files, path: Path, before: Files, child: Path)
    requires files.Keys <= before.Keys && path in before
    requires |child| > |path| && Prefix(path, child)
    ensures |Subtree(files, child)| < |Subtree(before, path)|
  {
    forall p | p in Subtree(files, child)
      ensures p in Subtree(before, path)
    {
      assert p[..|path|] == p[..|child|][..|path|];
    }
    assert path in Subtree(before, path) && path !in Subtree(files, child);
    StrictSubsetIsSmaller(Subtree(files, child), Subtree(before, path), path);
  }

  lemma StrictSubsetIsSmaller(a: set<Path>, b: set<Path>, x: Path)
    requires a <= b && x in b && x !in a
    ensures |a| < |b|
  {
    assert b == a + (b - a);
    assert x in b - a;
  }

  /** As much power was spent as entries are gone. */
  predicate Spent(before: Files, budget: nat, after: Files, left: nat) {
    |before| - |after| == budget - left
  }

  lemma OneLess(before: Files, after: Files, path: Path)
    requires path in before && after.Keys == before.Keys - {path}
    ensures |after| == |before| - 1
  {
    assert |before| == |before.Keys| && |after| == |after.Keys|;
    assert before.Keys == after.Keys + {path};
  }

  function Covered(files: Files, roots: set<Path>): set<Path> {
    set p | p in files && Below(roots, p)
  }

  /** Deletions that left one entry behind are fewer than the entries they may delete. */
  lemma LeftoverIsCounted(before: Files, after: Files, roots: set<Path>, leftover: Path)
    requires Shrunk(before, after, roots) && leftover in after && Below(roots, leftover)
    ensures |before| - |after| < |Covered(before, roots)|
  {
    var gone := before.Keys - after.Keys;
    assert before.Keys == gone + after.Keys;
    assert |before| == |before.Keys| && |after| == |after.Keys|;
    assert |gone| == |before| - |after|;
    assert gone <= Covered(before, roots) && leftover in Covered(before, roots) && leftover !in gone;
    StrictSubsetIsSmaller(gone, Covered(before, roots), leftover);
  }

  lemma RootIsCounted(before: Files, after: Files, path: Path)
    requires Shrunk(before, after, {path})
    ensures path in after ==> |before| - |after| < |Subtree(before, path)|
  {
    assert Covered(before, {path}) == Subtree(before, path);
    if path in after {
      assert Prefix(path, path);
      LeftoverIsCounted(before, after, {path}, path);
    }
  }

  lemma SubsetIsNoLarger(a: set<Path>, b: set<Path>)
    requires a <= b
    ensures |a| <= |b|
  {
    assert b == a + (b - a);
  }

  /** None of the first `i` calls had the power it needed. */
  predicate Starved(powers: seq<nat>, i: nat, needs: nat)
    requires i <= |powers|
  {
    forall k :: 0 <= k < i ==> powers[k] < needs
  }

  lemma StillStarved(powers: seq<nat>, i: nat, needs: nat)
    requires i < |powers| && Starved(powers, i, needs) && powers[i] < needs
    ensures Starved(powers, i + 1, needs)
  {
  }

  class FileTree {
    var files: Files
    var power: nat  // how many more deletions happen before power is lost

    constructor (files: Files, power: nat)
      ensures this.files == files && this.power == power
    {
      this.files, this.power := files, power;
    }

    /** One unlink or rmdir; the parent directory's size and times change as they please. */
    method Erase(path: Path) returns (alive: bool)
      requires WellFormed(files) && path in files && path != [] && !files[path].node.Special?
      requires forall p :: p in files && p != path ==> !Prefix(path, p)
      modifies this
      ensures WellFormed(files) && Shrunk(old(files), files, {path})
      ensures if alive then files.Keys == old(files).Keys - {path} else files == old(files)
      ensures alive <==> old(power) > 0
      ensures Spent(old(files), old(power), files, power)
    {
      if power == 0 {
        return false;
      }
      power := power - 1;
      var changed: nat, size: nat := *, *;
      var parent := Parent(path);
      var was := files;
      files := (files - {path})[parent := files[parent].(changed := changed, size := size)];
      OneLess(was, files, path);
      forall p | p in files && p != []
        ensures Parent(p) in files && files[Parent(p)].node.Directory?
      {
        assert p in was && Parent(p) in was;
        assert Prefix(Parent(p), p);
      }
      return true;
    }

    /** Remove one entry and everything below it, children first. Every unit of power spent is
        one entry deleted, so power for the whole subtree is enough; the removal then succeeds
        if and only if there is no special entry. */
    method RemoveEntry(path: Path) returns (outcome: Outcome)
      requires WellFormed(files) && path in files && path != []
      modifies this
      ensures old(power) >= |Subtree(old(files), path)| ==>
                (if NoSpecial(old(files), path) then outcome.Done? else outcome.Refused?)
      ensures WellFormed(files) && Shrunk(old(files), files, {path})
      ensures outcome.Done? ==> path !in files && NoSpecial(old(files), path)
      ensures outcome.Refused? ==> !NoSpecial(old(files), path)
      ensures outcome.PowerLoss? ==> power == 0 && path in files
      ensures Spent(old(files), old(power), files, power)
      decreases |Subtree(files, path)|, 1, 0
    {
      if files[path].node.Directory? {
        outcome := RemoveDirectory(path);
        RootIsCounted(old(files), files, path);
        return;
      }
      if files[path].node.Special? {
        assert Prefix(path, path);
        return Refused;
      }
      forall p | p in files && Prefix(path, p)
        ensures p == path
      {
        if |p| > |path| {
          AncestorIsPresent(files, p, |path|);
        }
      }
      var alive := Erase(path);
      outcome := if alive then Done else PowerLoss;
      RootIsCounted(old(files), files, path);
    }

    method RemoveDirectory(path: Path) returns (outcome: Outcome)
      requires WellFormed(files) && path in files && path != [] && files[path].node.Directory?
      modifies this
      ensures WellFormed(files) && Shrunk(old(files), files, {path})
      ensures outcome.Done? ==> path !in files && NoSpecial(old(files), path)
      ensures outcome.Refused? ==> !NoSpecial(old(files), path)
      ensures outcome.PowerLoss? ==> power == 0 && path in files
      ensures Spent(old(files), old(power), files, power)
      decreases |Subtree(files, path)|, 0, 1
    {
      outcome := RemoveContents(path);
      if outcome.Done? {
        ghost var mid := files;
        SpecialsAreLeft(old(files), mid, path);
        var alive := Erase(path);
        ShrunkIsTransitive(old(files), mid, files, {path});
        outcome := if alive then Done else PowerLoss;
      }
    }

    method RemoveContents(path: Path) returns (outcome: Outcome)
      requires WellFormed(files) && path in files && path != [] && files[path].node.Directory?
      modifies this
      ensures WellFormed(files) && Shrunk(old(files), files, {path}) && path in files
      ensures outcome.Done? ==> forall p :: p in files && Prefix(path, p) ==> p == path
      ensures outcome.Refused? ==> !NoSpecial(old(files), path)
      ensures outcome.PowerLoss? ==> power == 0
      ensures Spent(old(files), old(power), files, power)
      decreases |Subtree(files, path)|, 0, 0
    {
      var children := set p | p in files && |p| == |path| + 1 && Prefix(path, p);
      EveryChildIsListed(files, path, children);
      while children != {}
        invariant WellFormed(files) && Shrunk(old(files), files, {path}) && path in files
        invariant forall c :: c in children ==> |c| == |path| + 1 && Prefix(path, c)
        invariant Listed(files, path, children)
        invariant Spent(old(files), old(power), files, power)
        decreases children
      {
        var child :| child in children;
        if child in files {
          ghost var mid := files;
          ChildIsSmaller(files, path, old(files), child);
          outcome := RemoveEntry(child);
          ChildShrinksParent(old(files), mid, files, path, child);
          if !outcome.Done? {
            SpecialBelow(old(files), mid, path, child);
            return;
          }
          ListedShrinks(mid, files, path, children);
        }
        ChildIsGone(files, path, children, child);
        children := children - {child};
      }
      outcome := Done;
      NothingListed(files, path);
    }
  }

  /** Everything strictly below `path` stands at or below a listed child. */
  predicate Listed(files: Files, path: Path, children: set<Path>) {
    forall p :: p in files && |p| > |path| && Prefix(path, p) ==> p[..|path| + 1] in children
  }

  lemma EveryChildIsListed(files: Files, path: Path, children: set<Path>)
    requires WellFormed(files)
    requires forall p :: p in children <==> p in files && |p| == |path| + 1 && Prefix(path, p)
    ensures Listed(files, path, children)
  {
    forall p | p in files && |p| > |path| && Prefix(path, p)
      ensures p[..|path| + 1] in children
    {
      AncestorIsPresent(files, p, |path| + 1);
      assert p[..|path| + 1][..|path|] == p[..|path|];
    }
  }

  lemma ListedShrinks(before: Files, after: Files, path: Path, children: set<Path>)
    requires Listed(before, path, children) && after.Keys <= before.Keys
    ensures Listed(after, path, children)
  {
  }

  lemma ChildIsGone(files: Files, path: Path, children: set<Path>, child: Path)
    requires WellFormed(files) && Listed(files, path, children) && child !in files && |child| == |path| + 1
    ensures Listed(files, path, children - {child})
  {
    forall p | p in files && |p| > |path| && Prefix(path, p)
      ensures p[..|path| + 1] in children - {child}
    {
      AncestorIsPresent(files, p, |path| + 1);
    }
  }

  lemma NothingListed(files: Files, path: Path)
    requires Listed(files, path, {})
    ensures forall p :: p in files && Prefix(path, p) ==> p == path
  {
    forall p | p in files && Prefix(path, p)
      ensures p == path
    {
      assert |p| <= |path|;
      assert p[..|path|] == p;
    }
  }

  /** Deleting at or below a child deletes at or below the parent, and leaves the parent. */
  lemma ChildShrinksParent(a: Files, b: Files, c: Files, path: Path, child: Path)
    requires Shrunk(a, b, {path}) && Shrunk(b, c, {child}) && path in b
    requires |child| == |path| + 1 && Prefix(path, child)
    ensures Shrunk(a, c, {path}) && path in c
  {
    assert Below({path}, child);
    ShrunkWidens(b, c, child, {path});
    ShrunkIsTransitive(a, b, c, {path});
    assert !Below({child}, path);
  }

  lemma SpecialBelow(before: Files, mid: Files, path: Path, child: Path)
    requires Shrunk(before, mid, {path}) && Prefix(path, child)
    ensures !NoSpecial(mid, child) ==> !NoSpecial(before, path)
  {
    if !NoSpecial(mid, child) {
      var p :| p in mid && Prefix(child, p) && mid[p].node.Special?;
      assert p[..|path|] == p[..|child|][..|path|];
      assert Prefix(path, p) && before[p].node.Special?;
    }
  }

  lemma SpecialsAreLeft(before: Files, after: Files, path: Path)
    requires Shrunk(before, after, {path})
    requires path in after && after[path].node.Directory?
    requires forall p :: p in after && Prefix(path, p) ==> p == path
    ensures NoSpecial(before, path)
  {
  }
}
