/**
 * The storage manager (utils/storage.ts): the whole store lives under one key as a
 * `StorageData` object; every operation reads it (or the defaults when the key is
 * absent), changes the object read, and writes the whole object back.
 */
module Storage {
  import opened Wrappers
  import opened Programs

  datatype Settings = Settings(maxFreePrograms: int)

  datatype StorageData = StorageData(programs: seq<Program>, isPremium: bool, settings: Settings)

  /** What `getData` returns when nothing is stored. */
  const DefaultData := StorageData([], false, Settings(3))

  /** The error `addProgram` throws. */
  datatype StorageError = FreeLimitReached

  /** The duplicate test: same university and same title, compared exactly. */
  predicate SameProgram(p: Program, q: Program) {
    p.university == q.university && p.title == q.title
  }

  predicate AlreadyStored(programs: seq<Program>, program: Program) {
    exists i | 0 <= i < |programs| :: SameProgram(programs[i], program)
  }

  function GetData(stored: Option<StorageData>): StorageData {
    stored.GetOr(DefaultData)
  }

  /** `addProgram`: what is stored afterwards, and the value returned or the error thrown. */
  function Add(stored: Option<StorageData>, program: Program): (Option<StorageData>, Result<bool, StorageError>) {
    var data := GetData(stored);
    if AlreadyStored(data.programs, program) then (stored, Ok(false))
    else if !data.isPremium && |data.programs| >= data.settings.maxFreePrograms then (stored, Err(FreeLimitReached))
    else (Some(data.(programs := data.programs + [program])), Ok(true))
  }

  /** `removeProgram`. */
  function Remove(stored: Option<StorageData>, id: Id): Option<StorageData> {
    var data := GetData(stored);
    Some(data.(programs := WithoutId(data.programs, id)))
  }

  // ---------------------------------------------------------------------------
  // Properties

  /** An empty store reads as no programs, the free plan and a ceiling of three. */
  lemma DefaultsWhenAbsent()
    ensures GetData(None).programs == [] && !GetData(None).isPremium
    ensures GetData(None).settings.maxFreePrograms == 3
  {
  }

  /** A program with exactly the same university and title is not added: `false` comes back and nothing is written. */
  lemma AddRefusesDuplicate(stored: Option<StorageData>, program: Program, i: nat)
    requires i < |GetData(stored).programs|
    requires GetData(stored).programs[i].university == program.university
    requires GetData(stored).programs[i].title == program.title
    ensures Add(stored, program) == (stored, Ok(false))
  {
    assert SameProgram(GetData(stored).programs[i], program);
  }

  /** On the free plan at the ceiling, `FREE_LIMIT_REACHED` is thrown and nothing is written. */
  lemma AddThrowsAtLimit(stored: Option<StorageData>, program: Program)
    requires !AlreadyStored(GetData(stored).programs, program)
    requires !GetData(stored).isPremium
    requires |GetData(stored).programs| >= GetData(stored).settings.maxFreePrograms
    ensures Add(stored, program) == (stored, Err(FreeLimitReached))
  {
  }

  /** Otherwise the program is appended after the stored ones, the rest of the data is kept, and `true` comes back. */
  lemma AddAppends(stored: Option<StorageData>, program: Program)
    requires !AlreadyStored(GetData(stored).programs, program)
    requires GetData(stored).isPremium || |GetData(stored).programs| < GetData(stored).settings.maxFreePrograms
    ensures var (stored', r) := Add(stored, program);
      && r == Ok(true)
      && stored'.Some?
      && stored'.value.programs == GetData(stored).programs + [program]
      && stored'.value.isPremium == GetData(stored).isPremium
      && stored'.value.settings == GetData(stored).settings
  {
  }

  /** On the free plan, a store within its ceiling stays within it. */
  lemma AddKeepsCeiling(stored: Option<StorageData>, program: Program)
    requires !GetData(stored).isPremium
    requires |GetData(stored).programs| <= GetData(stored).settings.maxFreePrograms
    ensures var d := GetData(Add(stored, program).0);
      !d.isPremium && |d.programs| <= d.settings.maxFreePrograms
  {
  }

  /** Removing drops exactly the programs with that id, keeps the others in order, and is idempotent. */
  lemma RemoveDropsId(stored: Option<StorageData>, id: Id)
    ensures forall p :: p in GetData(Remove(stored, id)).programs <==> p in GetData(stored).programs && p.id != id
    ensures Remove(Remove(stored, id), id) == Remove(stored, id)
    ensures GetData(Remove(stored, id)).isPremium == GetData(stored).isPremium
    ensures GetData(Remove(stored, id)).settings == GetData(stored).settings
  {
    WithoutIdMembers(GetData(stored).programs, id);
    WithoutIdIdempotent(GetData(stored).programs, id);
  }

  // ---------------------------------------------------------------------------
  // The manager, holding the stored key

  class StorageManager {
    /** The value under the `courseCompareData` key. */
    var stored: Option<StorageData>

    constructor ()
      ensures stored.None?
    {
      stored := None;
    }

    method GetData() returns (data: StorageData)
      ensures data == (if stored.Some? then stored.value else StorageData([], false, Settings(3)))
    {
      data := stored.GetOr(DefaultData);
    }

    method SaveData(data: StorageData)
      modifies this
      ensures stored == Some(data)
    {
      stored := Some(data);
    }

    method AddProgram(program: Program) returns (r: Result<bool, StorageError>)
      modifies this
      ensures (stored, r) == Add(old(stored), program)
    {
      var data := GetData();

      var found := false;
      var i := 0;
      while i < |data.programs| && !found
        invariant 0 <= i <= |data.programs|
        invariant found <==> AlreadyStored(data.programs[..i], program)
      {
        found := SameProgram(data.programs[i], program);
        assert data.programs[..i + 1] == data.programs[..i] + [data.programs[i]];
        i := i + 1;
      }
      if !found {
        assert data.programs[..i] == data.programs;
      }

      if found {
        return Ok(false);
      }
      if !data.isPremium && |data.programs| >= data.settings.maxFreePrograms {
        return Err(FreeLimitReached);
      }
      data := data.(programs := data.programs + [program]);
      SaveData(data);
      return Ok(true);
    }

    method RemoveProgram(id: Id)
      modifies this
      ensures stored == Remove(old(stored), id)
    {
      var data := GetData();
      data := data.(programs := WithoutId(data.programs, id));
      SaveData(data);
    }

    /** `getPrograms` hands back the stored list as it is. */
    method GetPrograms() returns (programs: seq<Program>)
      ensures programs == (if stored.Some? then stored.value.programs else [])
    {
      var data := GetData();
      programs := data.programs;
    }
  }
}
