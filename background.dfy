/**
 * The background worker's saved-program store (background.js). The worker keeps three
 * keys in the extension's local storage: `savedPrograms`, `isPremium` and `trialUsed`.
 * Each message handler reads them, decides, and writes back; here each handler is one
 * transition of the value held under those keys.
 */
module Background {
  import opened Wrappers
  import opened Text
  import opened Programs

  /** The number of programs a free user may keep. */
  const FreeLimit := 3

  const DuplicateError := "Program already saved!"
  const LimitError := "Free limit reached! Upgrade to Premium for unlimited saves."

  /** What is stored under the three keys; `None` is a key that was never written. */
  datatype Keys = Keys(savedPrograms: Option<seq<Program>>, isPremium: Option<bool>, trialUsed: Option<int>)
  {
    /** The values a handler reads: absent keys read as `[]`, `false` and `0`. */
    function Saved(): seq<Program> { savedPrograms.GetOr([]) }
    function Premium(): bool { isPremium.GetOr(false) }
    function Trials(): int { trialUsed.GetOr(0) }
  }

  datatype SaveResponse =
    | Saved(program: Program, savedPrograms: seq<Program>)
    | Rejected(error: string)

  /** The install listener: every key that is missing gets its default; present keys are kept. */
  function Installed(k: Keys): Keys {
    Keys(
      if k.savedPrograms.None? then Some([]) else k.savedPrograms,
      if k.isPremium.None? then Some(false) else k.isPremium,
      if k.trialUsed.None? then Some(0) else k.trialUsed)
  }

  /** The duplicate test: same university and same title, ignoring case. */
  predicate SameProgram(p: Program, data: Payload) {
    Lower(p.university) == Lower(data.university) && Lower(p.title) == Lower(data.title)
  }

  predicate AlreadySaved(saved: seq<Program>, data: Payload) {
    exists i | 0 <= i < |saved| :: SameProgram(saved[i], data)
  }

  /**
   * `{ id: Date.now(), ...programData, savedAt: new Date().toISOString() }`: the payload's
   * own id, when it has one, overrides the clock's; the save time always comes from the clock.
   */
  function NewProgram(data: Payload, clockId: Id, clockTime: string): Program {
    Program(
      data.id.GetOr(clockId), data.title, data.university,
      data.tuition, data.duration, data.deadline, data.location, data.gre,
      data.url, clockTime, data.extractedData)
  }

  /** `handleSaveProgram`: the keys afterwards and the response sent back. */
  function Save(k: Keys, data: Payload, clockId: Id, clockTime: string): (Keys, SaveResponse) {
    if AlreadySaved(k.Saved(), data) then (k, Rejected(DuplicateError))
    else if !k.Premium() && |k.Saved()| >= FreeLimit then (k, Rejected(LimitError))
    else
      var program := NewProgram(data, clockId, clockTime);
      var saved := k.Saved() + [program];
      var trialUsed := if k.Premium() then k.trialUsed else Some(k.Trials() + 1);
      (k.(savedPrograms := Some(saved), trialUsed := trialUsed), Saved(program, saved))
  }

  /** `handleRemoveProgram`: the filtered list is written back and the response always reports success. */
  function Remove(k: Keys, id: Id): Keys {
    k.(savedPrograms := Some(WithoutId(k.Saved(), id)))
  }

  /** `handleUpgradeToPremium`. */
  function Upgrade(k: Keys): Keys {
    k.(isPremium := Some(true))
  }

  // ---------------------------------------------------------------------------
  // Properties of the handlers

  /** A program already saved under the same university and title, in any case, is refused and nothing is written. */
  lemma SaveRejectsDuplicate(k: Keys, data: Payload, clockId: Id, clockTime: string, i: nat)
    requires i < |k.Saved()|
    requires Lower(k.Saved()[i].university) == Lower(data.university)
    requires Lower(k.Saved()[i].title) == Lower(data.title)
    ensures Save(k, data, clockId, clockTime) == (k, Rejected(DuplicateError))
  {
    assert SameProgram(k.Saved()[i], data);
  }

  /** On the free plan, with the limit reached, a new program is refused and nothing is written. */
  lemma SaveRejectsAtFreeLimit(k: Keys, data: Payload, clockId: Id, clockTime: string)
    requires !AlreadySaved(k.Saved(), data)
    requires !k.Premium() && |k.Saved()| >= FreeLimit
    ensures Save(k, data, clockId, clockTime) == (k, Rejected(LimitError))
  {
  }

  /** The duplicate test comes first: a duplicate offered at the limit is reported as a duplicate. */
  lemma SaveReportsDuplicateFirst(k: Keys, data: Payload, clockId: Id, clockTime: string)
    requires AlreadySaved(k.Saved(), data) && !k.Premium() && |k.Saved()| >= FreeLimit
    ensures Save(k, data, clockId, clockTime).1 == Rejected(DuplicateError)
  {
  }

  /**
   * Otherwise the save succeeds: exactly one record is appended after the earlier ones,
   * which keep their order, the response carries the record and the new list, and the
   * premium flag is not written.
   */
  lemma SaveAppends(k: Keys, data: Payload, clockId: Id, clockTime: string)
    requires !AlreadySaved(k.Saved(), data)
    requires k.Premium() || |k.Saved()| < FreeLimit
    ensures var (k', r) := Save(k, data, clockId, clockTime);
      && r.Saved?
      && k'.savedPrograms == Some(r.savedPrograms)
      && |r.savedPrograms| == |k.Saved()| + 1
      && r.savedPrograms[..|k.Saved()|] == k.Saved()
      && r.savedPrograms[|k.Saved()|] == r.program
      && k'.isPremium == k.isPremium
  {
  }

  /** The stored record is the payload's fields, its own id or else the clock's, and the clock's save time. */
  lemma SaveRecord(k: Keys, data: Payload, clockId: Id, clockTime: string)
    requires Save(k, data, clockId, clockTime).1.Saved?
    ensures var p := Save(k, data, clockId, clockTime).1.program;
      && p.id == (if data.id.Some? then data.id.value else clockId)
      && p.savedAt == clockTime
      && p.title == data.title && p.university == data.university
      && p.tuition == data.tuition && p.duration == data.duration && p.deadline == data.deadline
      && p.location == data.location && p.gre == data.gre && p.url == data.url
  {
  }

  /** `trialUsed` rises by one on a successful free-plan save and is left alone otherwise. */
  lemma SaveCountsTrials(k: Keys, data: Payload, clockId: Id, clockTime: string)
    ensures var (k', r) := Save(k, data, clockId, clockTime);
      && (r.Saved? && !k.Premium() ==> k'.trialUsed == Some(k.Trials() + 1))
      && (r.Rejected? || k.Premium() ==> k'.trialUsed == k.trialUsed)
  {
  }

  /** Removing keeps exactly the records with another id, in order; an unknown id leaves the list as it was. */
  lemma RemoveKeepsOthers(k: Keys, id: Id)
    ensures Remove(k, id).savedPrograms.Some?
    ensures forall p :: p in Remove(k, id).Saved() <==> p in k.Saved() && p.id != id
    ensures (forall i | 0 <= i < |k.Saved()| :: k.Saved()[i].id != id) ==> Remove(k, id).Saved() == k.Saved()
    ensures Remove(k, id).isPremium == k.isPremium && Remove(k, id).trialUsed == k.trialUsed
  {
    WithoutIdMembers(k.Saved(), id);
    if forall i | 0 <= i < |k.Saved()| :: k.Saved()[i].id != id {
      WithoutIdAbsent(k.Saved(), id);
    }
  }

  // ---------------------------------------------------------------------------
  // The free-plan ceiling over any sequence of handled messages

  datatype Message =
    | SaveProgram(data: Payload, clockId: Id, clockTime: string)
    | RemoveProgram(id: Id)
    | UpgradeToPremium

  function Handle(k: Keys, m: Message): Keys {
    match m
    case SaveProgram(data, clockId, clockTime) => Save(k, data, clockId, clockTime).0
    case RemoveProgram(id) => Remove(k, id)
    case UpgradeToPremium => Upgrade(k)
  }

  function Run(k: Keys, ms: seq<Message>): Keys
    decreases |ms|
  {
    if ms == [] then k else Run(Handle(k, ms[0]), ms[1..])
  }

  /** Free users never hold more than the limit. */
  predicate WithinFreeLimit(k: Keys) {
    k.Premium() || |k.Saved()| <= FreeLimit
  }

  lemma HandleKeepsLimit(k: Keys, m: Message)
    requires WithinFreeLimit(k)
    ensures WithinFreeLimit(Handle(k, m))
  {
    if m.RemoveProgram? {
      WithoutIdMembers(k.Saved(), m.id);
    }
  }

  /** From a fresh install, every sequence of saves, removals and upgrades stays within the free limit. */
  lemma {:induction false} RunKeepsLimit(k: Keys, ms: seq<Message>)
    requires WithinFreeLimit(k)
    ensures WithinFreeLimit(Run(k, ms))
    decreases |ms|
  {
    if ms != [] {
      HandleKeepsLimit(k, ms[0]);
      RunKeepsLimit(Handle(k, ms[0]), ms[1..]);
    }
  }

  /** Once a payload is saved, sending the same payload again is refused as a duplicate and writes nothing. */
  lemma SaveTwiceRejected(k: Keys, data: Payload, id1: Id, time1: string, id2: Id, time2: string)
    requires Save(k, data, id1, time1).1.Saved?
    ensures var k' := Save(k, data, id1, time1).0;
      Save(k', data, id2, time2) == (k', Rejected(DuplicateError))
  {
    var k' := Save(k, data, id1, time1).0;
    SaveAppends(k, data, id1, time1);
    SaveRejectsDuplicate(k', data, id2, time2, |k.Saved()|);
  }

  lemma InstallStartsWithinLimit(k: Keys)
    requires k.savedPrograms.None?
    ensures Installed(k).savedPrograms == Some([])
    ensures WithinFreeLimit(Installed(k))
  {
  }

  // ---------------------------------------------------------------------------
  // The worker, holding the storage keys

  class ExtensionStorage {
    var savedPrograms: Option<seq<Program>>
    var isPremium: Option<bool>
    var trialUsed: Option<int>

    function State(): Keys
      reads this
    {
      Keys(savedPrograms, isPremium, trialUsed)
    }

    /** Storage before the extension was ever installed: no key is set. */
    constructor ()
      ensures State() == Keys(None, None, None)
    {
      savedPrograms, isPremium, trialUsed := None, None, None;
    }

    /** The install listener. */
    method OnInstalled()
      modifies this
      ensures State() == Installed(old(State()))
    {
      if savedPrograms.None? {
        savedPrograms := Some([]);
      }
      if isPremium.None? {
        isPremium := Some(false);
      }
      if trialUsed.None? {
        trialUsed := Some(0);
      }
    }

    /** The `saveProgram` message. */
    method HandleSaveProgram(data: Payload, clockId: Id, clockTime: string) returns (response: SaveResponse)
      modifies this
      ensures (State(), response) == Save(old(State()), data, clockId, clockTime)
    {
      var saved := savedPrograms.GetOr([]);
      var premium := isPremium.GetOr(false);
      var trials := trialUsed.GetOr(0);

      var found := false;
      var i := 0;
      while i < |saved| && !found
        invariant 0 <= i <= |saved|
        invariant found <==> AlreadySaved(saved[..i], data)
      {
        found := SameProgram(saved[i], data);
        assert saved[..i + 1] == saved[..i] + [saved[i]];
        i := i + 1;
      }
      if !found {
        assert saved[..i] == saved;
      }

      if found {
        return Rejected(DuplicateError);
      }
      if !premium && |saved| >= FreeLimit {
        return Rejected(LimitError);
      }

      var program := NewProgram(data, clockId, clockTime);
      saved := saved + [program];
      savedPrograms := Some(saved);
      if !premium {
        trialUsed := Some(trials + 1);
      }
      response := Saved(program, saved);
    }

    /** The `removeProgram` message: returns the success flag and the list now stored. */
    method HandleRemoveProgram(id: Id) returns (success: bool, programs: seq<Program>)
      modifies this
      ensures State() == Remove(old(State()), id)
      ensures success && programs == State().Saved()
    {
      programs := WithoutId(savedPrograms.GetOr([]), id);
      savedPrograms := Some(programs);
      success := true;
    }

    /** The `upgradeToPremium` message. */
    method HandleUpgradeToPremium() returns (success: bool)
      modifies this
      ensures State() == Upgrade(old(State())) && success
    {
      isPremium := Some(true);
      success := true;
    }

    /** The `getSavedPrograms` message. */
    method GetSavedPrograms() returns (programs: seq<Program>)
      ensures programs == (if savedPrograms.Some? then savedPrograms.value else [])
    {
      programs := savedPrograms.GetOr([]);
    }

    /** The `checkPremiumStatus` message. */
    method CheckPremiumStatus() returns (premium: bool, trials: int)
      ensures premium == (isPremium == Some(true))
      ensures trials == (if trialUsed.Some? then trialUsed.value else 0)
    {
      premium := isPremium.GetOr(false);
      trials := trialUsed.GetOr(0);
    }
  }
}
