/**
 The programs that rewrite the journal file in place. The dependency-free one loads,
 updates the record, validates and writes; the packaged one loads into an object, updates
 its fields without validating, and writes whatever it holds. Both are tied to the step
 functions of `Journals`.
 */
module JournalStore {
  import opened Objects
  import opened Identifiers
  import opened OwnedPaths
  import opened Journals

  class JournalFile {
    var stored: Journal

    constructor (stored: Journal)
      ensures this.stored == stored
    {
      this.stored := stored;
    }

    /** Dependency-free advance: a refused call leaves the file as it was. */
    method AdvanceJournal(target: State, prepared: Option<string>) returns (ok: bool)
      modifies this
      ensures ok <==>
                && (prepared.Some? <==> target == Prepared)
                && old(Apply(DependencyFree, stored, Advance(target, if prepared.Some? then prepared.value else ""))).Some?
      ensures ok ==> Some(stored)
                     == old(Apply(DependencyFree, stored, Advance(target, if prepared.Some? then prepared.value else "")))
      ensures !ok ==> stored == old(stored)
    {
      if !Loads(DependencyFree, stored) {
        return false;
      }
      var value := stored;
      if target !in Transitions(value.state) {
        return false;
      }
      if target == Prepared {
        if prepared.None? || !IsSha256(prepared.value) {
          return false;
        }
        value := value.(prepared := prepared);
      } else if prepared.Some? {
        return false;
      }
      value := value.(state := target);
      if target == MigrationStarted {
        value := value.(irreversible := true);
      }
      if !Loads(DependencyFree, value) {
        return false;
      }
      stored := value;
      return true;
    }

    /** Dependency-free phase record: write-once. */
    method RecordJournalPhase(phase: string, identity: string) returns (ok: bool)
      modifies this
      ensures ok <==> old(Apply(DependencyFree, stored, RecordPhase(phase, identity))).Some?
      ensures ok ==> Some(stored) == old(Apply(DependencyFree, stored, RecordPhase(phase, identity)))
      ensures !ok ==> stored == old(stored)
    {
      if !NameAccepted(DependencyFree, phase) || !IsSha256(identity) || !Loads(DependencyFree, stored) {
        return false;
      }
      if Terminal(stored.state) || (phase in stored.phases && stored.phases[phase] != identity) {
        return false;
      }
      var value := stored.(phases := stored.phases[phase := identity]);
      if !Loads(DependencyFree, value) {
        return false;
      }
      stored := value;
      return true;
    }

    /** Bind the observed identity of a declared path; a different recorded one is kept. */
    method RecordOwnedPath(name: string, observed: Identity) returns (ok: bool)
      modifies this
      ensures ok <==> old(Apply(DependencyFree, stored, RecordOwned(name, observed))).Some?
      ensures ok ==> Some(stored) == old(Apply(DependencyFree, stored, RecordOwned(name, observed)))
      ensures !ok ==> stored == old(stored)
    {
      if !Loads(DependencyFree, stored) || Terminal(stored.state) || name !in stored.owned {
        return false;
      }
      var item := stored.owned[name];
      if !KindAccepts(item.kind, observed) || (item.identity.Some? && item.identity.value != observed) {
        return false;
      }
      var value := stored.(owned := stored.owned[name := item.(identity := Some(observed))]);
      if !Loads(DependencyFree, value) {
        return false;
      }
      stored := value;
      return true;
    }
  }

  /** The packaged journal object: mutable fields, no validation of its own updates. */
  class TransactionJournal {
    const invocation: string
    const fingerprint: string
    const mode: Mode
    const owned: map<string, Owned>
    var state: State
    var prepared: Option<string>
    var recoveredFrom: Option<State>
    var irreversible: bool
    var phases: map<string, string>

    ghost function Value(): Journal
      reads this
    {
      Journal(invocation, fingerprint, mode, state, prepared, recoveredFrom, irreversible, owned, phases)
    }

    constructor Load(file: JournalFile)
      requires Loads(Packaged, file.stored)
      ensures Value() == file.stored
    {
      var j := file.stored;
      invocation, fingerprint, mode, owned := j.invocation, j.fingerprint, j.mode, j.owned;
      state, prepared, recoveredFrom := j.state, j.prepared, j.recoveredFrom;
      irreversible, phases := j.irreversible, j.phases;
    }

    method Advance(target: State) returns (ok: bool)
      modifies this
      ensures ok <==> target in Transitions(old(state))
      ensures ok ==> Value() == old(Value()).(
                       state := target, irreversible := old(irreversible) || Crosses(Packaged, mode, target))
      ensures !ok ==> Value() == old(Value())
    {
      if target !in Transitions(state) {
        return false;
      }
      state := target;
      if target == MigrationStarted || (target == Activating && mode != Full) {
        irreversible := true;
      }
      return true;
    }

    method Complete() returns (ok: bool)
      modifies this
      ensures ok <==> old(state) != Committed && old(state) != Recovered
      ensures ok <==> Stepped(Packaged, old(Value()), CompleteRecovery).Some?
      ensures ok ==> Some(Value()) == Stepped(Packaged, old(Value()), CompleteRecovery)
      ensures ok ==> state == Recovered
                     && recoveredFrom == (if old(recoveredFrom) == None then Some(old(state)) else old(recoveredFrom))
      ensures !ok ==> Value() == old(Value())
    {
      if state == Committed || state == Recovered {
        return false;
      }
      if recoveredFrom.None? {
        recoveredFrom := Some(state);
      }
      state := Recovered;
      return true;
    }

    method Record(phase: string, identity: string) returns (ok: bool)
      modifies this
      ensures ok <==> Stepped(Packaged, old(Value()), RecordPhase(phase, identity)).Some?
      ensures ok ==> Some(Value()) == Stepped(Packaged, old(Value()), RecordPhase(phase, identity))
      ensures !ok ==> Value() == old(Value())
    {
      if state == Committed || state == Recovered || !IsIdentifier(phase) || !IsSha256(identity) {
        return false;
      }
      if phase in phases && phases[phase] != identity {
        return false;
      }
      phases := phases[phase := identity];
      return true;
    }

    method Persist(file: JournalFile)
      modifies file
      ensures file.stored == Value()
    {
      file.stored :=
        Journal(invocation, fingerprint, mode, state, prepared, recoveredFrom, irreversible, owned, phases);
    }
  }

  /** `journal-advance`. The write is not validated, so the file may come to hold a journal that
      no longer loads; a step that `Apply` accepts is exactly one that was written and loads. */
  method JournalAdvance(file: JournalFile, target: State, generation: string) returns (ok: bool)
    modifies file
    ensures ok <==> Loads(Packaged, old(file.stored))
                    && Stepped(Packaged, old(file.stored), Advance(target, generation)).Some?
    ensures ok ==> Some(file.stored) == Stepped(Packaged, old(file.stored), Advance(target, generation))
    ensures !ok ==> file.stored == old(file.stored)
    ensures ok && Loads(Packaged, file.stored)
            <==> Apply(Packaged, old(file.stored), Advance(target, generation)).Some?
  {
    if !Loads(Packaged, file.stored) {
      return false;
    }
    var journal := new TransactionJournal.Load(file);
    if target == Prepared {
      journal.prepared := Some(generation);
    }
    ok := journal.Advance(target);
    if ok {
      journal.Persist(file);
    }
  }

  /** `recovery-complete`. */
  method RecoveryComplete(file: JournalFile) returns (ok: bool)
    modifies file
    ensures ok <==> old(Apply(Packaged, file.stored, CompleteRecovery)).Some?
    ensures ok ==> Some(file.stored) == old(Apply(Packaged, file.stored, CompleteRecovery))
    ensures !ok ==> file.stored == old(file.stored)
  {
    if !Loads(Packaged, file.stored) {
      return false;
    }
    var journal := new TransactionJournal.Load(file);
    ok := journal.Complete();
    if ok {
      journal.Persist(file);
    }
  }
}
