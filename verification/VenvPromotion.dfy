/**
 Promotion of a staged execution environment: exchange it with the live one, then rename
 the old one to a retire name. Which of the two steps an earlier call completed is decided
 from the identity of the live directory alone, so the exchange is never undone.
 */
module VenvPromotion {
  import opened Objects

  /** What a pathname holds: a directory with its whole content, or something else. */
  datatype Node = Environment(device: nat, inode: nat, content: string) | NotDirectory

  datatype Outcome = Promoted | Refused | PowerLoss

  datatype Place = Live | Staged | Retired(name: string)

  predicate HasIdentity(node: Option<Node>, device: nat, inode: nat) {
    node.Some? && node.value.Environment? && node.value.device == device && node.value.inode == inode
  }

  /** The live name, the staged name and the retire names. */
  datatype Names = Names(live: Option<Node>, staged: Option<Node>, retired: map<string, Node>)

  /** Every name that holds the given environment. */
  function Places(names: Names, node: Node): set<Place> {
    (if names.live == Some(node) then {Live} else {})
    + (if names.staged == Some(node) then {Staged} else {})
    + (set name | name in names.retired && names.retired[name] == node :: Retired(name))
  }

  ghost predicate RetiredOnce(names: Names, node: Node) {
    exists name :: name in names.retired && names.retired[name] == node
                   && forall other :: other in names.retired && names.retired[other] == node ==> other == name
  }

  /** Old live and new staged; or new live and old staged; or new live and old retired once. */
  ghost predicate Underway(names: Names, before: Node, after: Node) {
    && before.Environment? && after.Environment?
    && (before.device, before.inode) != (after.device, after.inode)
    && after !in names.retired.Values
    && (|| (names.live == Some(before) && names.staged == Some(after) && before !in names.retired.Values)
        || (names.live == Some(after) && names.staged == Some(before) && before !in names.retired.Values)
        || (names.live == Some(after) && names.staged.None? && RetiredOnce(names, before)))
  }

  /** In every state of a promotion the live name holds the whole old or the whole new
      environment, the new one is at exactly one name, and so is the old one. */
  lemma EachAtExactlyOneName(names: Names, before: Node, after: Node)
    requires Underway(names, before, after)
    ensures names.live == Some(before) || names.live == Some(after)
    ensures exists place :: Places(names, before) == {place}
    ensures exists place :: Places(names, after) == {place} && (place == Live || place == Staged)
  {
    if names.live == Some(before) {
      assert Places(names, before) == {Live} && Places(names, after) == {Staged};
    } else if names.staged == Some(before) {
      assert Places(names, before) == {Staged} && Places(names, after) == {Live};
    } else {
      var name :| name in names.retired && names.retired[name] == before
                  && forall other :: other in names.retired && names.retired[other] == before ==> other == name;
      assert Places(names, before) == {Retired(name)};
      assert Places(names, after) == {Live};
    }
  }

  lemma RetiringIsOnce(names: Names, name: string, before: Node, after: Node)
    requires Underway(names, before, after) && names.live == Some(after) && names.staged == Some(before)
    requires name !in names.retired
    ensures Underway(Names(names.live, None, names.retired[name := before]), before, after)
  {
    var retired := names.retired[name := before];
    assert retired[name] == before;
    forall other | other in retired && other != name
      ensures retired[other] != before && retired[other] != after
    {
      assert retired[other] == names.retired[other] && retired[other] in names.retired.Values;
    }
    assert RetiredOnce(Names(names.live, None, retired), before);
  }

  /** The next step of a promotion: the exchange, then the retirement, then nothing. */
  function Moved(names: Names, device: nat, inode: nat, retiredAt: string): Names {
    if !HasIdentity(names.live, device, inode) then Names(names.staged, names.live, names.retired)
    else if names.staged.Some? then Names(names.live, None, names.retired[retiredAt := names.staged.value])
    else names
  }

  /** How many steps a promotion still has to take. */
  function Steps(names: Names, device: nat, inode: nat): nat {
    if !HasIdentity(names.live, device, inode) then 2 else if names.staged.Some? then 1 else 0
  }

  function After(names: Names, device: nat, inode: nat, retiredAt: string, steps: nat): Names {
    if steps == 0 then names
    else
      var once := Moved(names, device, inode, retiredAt);
      if steps == 1 then once else Moved(once, device, inode, retiredAt)
  }

  class Environments {
    var live: Option<Node>
    var staged: Option<Node>
    var retired: map<string, Node>
    var power: nat

    constructor (live: Option<Node>, staged: Option<Node>, retired: map<string, Node>, power: nat)
      ensures this.live == live && this.staged == staged && this.retired == retired && this.power == power
    {
      this.live, this.staged, this.retired, this.power := live, staged, retired, power;
    }

    ghost function Now(): Names
      reads this
    {
      Names(live, staged, retired)
    }

    /** Exchange unless the live directory already is the staged one; then retire the old one.
        A call takes as many of its steps as it has power for, and ends exactly with power for
        all; a promotion of `before` to `after` stays one wherever the call is cut short. */
    method Promote(retiredAt: string, device: nat, inode: nat, ghost before: Node, ghost after: Node)
      returns (outcome: Outcome)
      modifies this
      ensures outcome.Refused? <==>
                || retiredAt in old(retired)
                || old(live).None? || old(live).value.NotDirectory?
                || (&& (old(live).value.device, old(live).value.inode) != (device, inode)
                    && (old(staged).None? || old(staged).value.NotDirectory?
                        || (old(staged).value.device, old(staged).value.inode) != (device, inode)))
      ensures outcome.Refused? ==> Now() == old(Now())
      ensures !outcome.Refused? ==>
                var steps := old(Steps(Now(), device, inode));
                && (outcome.Promoted? <==> old(power) >= steps)
                && Now() == After(old(Now()), device, inode, retiredAt, if old(power) >= steps then steps else old(power))
      ensures outcome.Promoted? ==> HasIdentity(live, device, inode) && staged.None?
      ensures outcome.PowerLoss? ==> retired == old(retired)
      ensures forall name :: name in old(retired) ==> name in retired && retired[name] == old(retired)[name]
      ensures old(Underway(Now(), before, after)) && HasIdentity(Some(after), device, inode) ==>
                Underway(Now(), before, after) && (old(live) == Some(after) ==> live == Some(after))
    {
      if retiredAt in retired {
        return Refused;
      }
      if live.None? || live.value.NotDirectory? {
        return Refused;
      }
      if !HasIdentity(live, device, inode) {
        if !HasIdentity(staged, device, inode) {
          return Refused;
        }
        if power == 0 {
          return PowerLoss;
        }
        power := power - 1;
        live, staged := staged, live;
      }
      if staged.Some? {
        if power == 0 {
          return PowerLoss;
        }
        power := power - 1;
        if old(Underway(Now(), before, after)) && HasIdentity(Some(after), device, inode) {
          RetiringIsOnce(Now(), retiredAt, before, after);
        }
        retired := retired[retiredAt := staged.value];
        staged := None;
      }
      return Promoted;
    }

    /** Any number of calls, each with its own retire name and cut short wherever power is lost:
        the promotion only moves forward; with fresh names, one call with power for two steps
        completes it, and completion means that the old environment is retired once. */
    method PromoteAfterCrashes(calls: seq<(string, nat)>, before: Node, after: Node) returns (outcome: Outcome)
      requires Underway(Now(), before, after)
      modifies this
      ensures Underway(Now(), before, after)
      ensures old(live) == Some(after) ==> live == Some(after)
      ensures outcome.Promoted? ==> live == Some(after) && staged.None? && RetiredOnce(Now(), before)
      ensures outcome.Refused? ==> exists i :: 0 <= i < |calls| && calls[i].0 in old(retired)
      ensures (forall i :: 0 <= i < |calls| ==> calls[i].0 !in old(retired)) ==>
                (exists i :: 0 <= i < |calls| && calls[i].1 >= 2) ==> outcome.Promoted?
    {
      outcome := PowerLoss;
      var i := 0;
      while i < |calls| && outcome.PowerLoss?
        invariant 0 <= i <= |calls|
        invariant !outcome.Promoted? ==> retired == old(retired)
        invariant outcome.PowerLoss? ==> forall k :: 0 <= k < i ==> calls[k].1 < 2
        invariant Underway(Now(), before, after)
        invariant old(live) == Some(after) ==> live == Some(after)
        invariant outcome.Promoted? ==> live == Some(after) && staged.None?
        invariant outcome.Refused? ==> exists k :: 0 <= k < |calls| && calls[k].0 in old(retired)
      {
        power := calls[i].1;
        outcome := Promote(calls[i].0, after.device, after.inode, before, after);
        i := i + 1;
      }
    }
  }
}
