/**
 * The saved-program record shared by the background worker, the storage manager
 * and the popup, and the filter by id that all three use to remove a record.
 */
module Programs {
  import opened Wrappers

  type Id = string

  /**
   * A saved program (the `ProgramData` interface): the optional extracted fields are
   * `None` where the record has no such property. `savedAt` and `id` are opaque values
   * produced by the clock or the id generator.
   */
  datatype Program = Program(
    id: Id,
    title: string,
    university: string,
    tuition: Option<string>,
    duration: Option<string>,
    deadline: Option<string>,
    location: Option<string>,
    gre: Option<string>,
    url: string,
    savedAt: string,
    extractedData: map<string, string>)

  /** The program a page sends with a save request: it carries an `id` only when its sender set one. */
  datatype Payload = Payload(
    id: Option<Id>,
    title: string,
    university: string,
    tuition: Option<string>,
    duration: Option<string>,
    deadline: Option<string>,
    location: Option<string>,
    gre: Option<string>,
    url: string,
    extractedData: map<string, string>)

  /** `programs.filter(p => p.id !== id)`. */
  function WithoutId(programs: seq<Program>, id: Id): seq<Program>
  {
    if programs == [] then []
    else (if programs[0].id != id then [programs[0]] else []) + WithoutId(programs[1..], id)
  }

  /** The filter keeps exactly the records whose id differs, and never grows the list. */
  lemma {:induction false} WithoutIdMembers(programs: seq<Program>, id: Id)
    ensures forall p :: p in WithoutId(programs, id) <==> p in programs && p.id != id
    ensures |WithoutId(programs, id)| <= |programs|
  {
    if programs != [] {
      WithoutIdMembers(programs[1..], id);
      assert programs == [programs[0]] + programs[1..];
    }
  }

  /** The filter works element by element, so the records it keeps stay in their order. */
  lemma {:induction false} WithoutIdAppend(a: seq<Program>, b: seq<Program>, id: Id)
    ensures WithoutId(a + b, id) == WithoutId(a, id) + WithoutId(b, id)
  {
    if a != [] {
      assert (a + b)[1..] == a[1..] + b;
      WithoutIdAppend(a[1..], b, id);
    } else {
      assert a + b == b;
    }
  }

  /** Removing an id that no record has changes nothing. */
  lemma {:induction false} WithoutIdAbsent(programs: seq<Program>, id: Id)
    requires forall i | 0 <= i < |programs| :: programs[i].id != id
    ensures WithoutId(programs, id) == programs
  {
    if programs != [] {
      WithoutIdAbsent(programs[1..], id);
    }
  }

  /** Removing the same id twice is removing it once. */
  lemma WithoutIdIdempotent(programs: seq<Program>, id: Id)
    ensures WithoutId(WithoutId(programs, id), id) == WithoutId(programs, id)
  {
    var r := WithoutId(programs, id);
    WithoutIdMembers(programs, id);
    assert forall i | 0 <= i < |r| :: r[i] in r;
    WithoutIdAbsent(r, id);
  }
}
