/**
 * The popup (popup.js): the saved-count header, whether the compare button is offered,
 * the local list after a remove, and the CSV export of the comparison.
 */
module Popup {
  import opened Wrappers
  import opened Text
  import opened Programs

  // ---------------------------------------------------------------------------
  // Header and actions

  /** `${savedPrograms.length}/${isPremium ? '∞' : '3'}`. */
  function SavedCount(n: nat, isPremium: bool): string {
    NatToString(n) + "/" + (if isPremium then "\U{221E}" else "3")
  }

  /** The header text splits at its slash into the saved count, read back unchanged, and the plan's limit. */
  lemma SavedCountReadsBack(n: nat, isPremium: bool)
    ensures var parts := Split(SavedCount(n, isPremium), '/');
      && |parts| == 2
      && parts[0] == NatToString(n)
      && DecimalValue(parts[0]) == n
      && parts[1] == (if isPremium then "\U{221E}" else "3")
  {
    var digits := NatToString(n);
    var limit := if isPremium then "\U{221E}" else "3";
    assert '/' !in digits by {
      forall i | 0 <= i < |digits|
        ensures digits[i] != '/'
      {
        assert '0' <= digits[i] <= '9';
      }
    }
    assert SavedCount(n, isPremium) == digits + ['/'] + limit;
    SplitAtSeparator(digits, '/', limit);
    SplitNoSeparator(limit, '/');
    NatToStringValue(n);
  }

  /** The action bar: hidden with no programs, else shown with compare disabled below two. */
  datatype Actions = ActionsHidden | ActionsShown(compareDisabled: bool)

  function ActionsFor(n: nat): Actions {
    if n > 0 then ActionsShown(n < 2) else ActionsHidden
  }

  /** `showComparison` opens the table only for two or more programs. */
  predicate ComparisonOpens(n: nat) {
    !(n < 2)
  }

  /** The compare button is enabled exactly when pressing it opens the comparison. */
  lemma CompareButtonMatchesGuard(n: nat)
    ensures ActionsFor(n) == ActionsShown(false) <==> ComparisonOpens(n)
    ensures ActionsFor(n).ActionsHidden? <==> n == 0
  {
  }

  // ---------------------------------------------------------------------------
  // CSV export

  datatype Field = Tuition | Duration | Deadline | Location | Gre | Url

  const CsvFields: seq<Field> := [Tuition, Duration, Deadline, Location, Gre, Url]

  function Label(f: Field): string {
    match f
    case Tuition => "Tuition"
    case Duration => "Duration"
    case Deadline => "Application Deadline"
    case Location => "Location"
    case Gre => "GRE Requirement"
    case Url => "Program URL"
  }

  /** `p[field.key]`, `None` for a missing property. */
  function Value(p: Program, f: Field): Option<string> {
    match f
    case Tuition => p.tuition
    case Duration => p.duration
    case Deadline => p.deadline
    case Location => p.location
    case Gre => p.gre
    case Url => Some(p.url)
  }

  /** `"${p[field.key] || 'Not specified'}"`: the quotes are written around the fallback as well. */
  function Cell(v: Option<string>): string {
    "\"" + (if v.Some? && v.value != [] then v.value else "Not specified") + "\""
  }

  function Cells(programs: seq<Program>, f: Field): (cells: seq<string>)
    ensures |cells| == |programs|
    ensures forall i | 0 <= i < |programs| :: cells[i] == Cell(Value(programs[i], f))
  {
    seq(|programs|, i requires 0 <= i < |programs| => Cell(Value(programs[i], f)))
  }

  function Headers(programs: seq<Program>): (headers: seq<string>)
    ensures |headers| == |programs| + 1
    ensures headers[0] == "Field"
    ensures forall i | 0 <= i < |programs| :: headers[i + 1] == programs[i].university + " - " + programs[i].title
  {
    ["Field"] + seq(|programs|, i requires 0 <= i < |programs| => programs[i].university + " - " + programs[i].title)
  }

  function FieldRow(programs: seq<Program>, f: Field): string {
    Join([Label(f)] + Cells(programs, f), ",")
  }

  /** The lines of the CSV: the header, then one row per field in `CsvFields` order. */
  function CsvRows(programs: seq<Program>): seq<string> {
    [Join(Headers(programs), ",")] + seq(|CsvFields|, r requires 0 <= r < |CsvFields| => FieldRow(programs, CsvFields[r]))
  }

  /** `generateCSV`: the header line, then a row pushed for each field in turn. */
  method GenerateCsv(programs: seq<Program>) returns (csv: string)
    ensures csv == Join(CsvRows(programs), "\n")
  {
    var headers := Headers(programs);
    var rows := [Join(headers, ",")];
    for r := 0 to |CsvFields|
      invariant rows == CsvRows(programs)[..r + 1]
    {
      var row := [Label(CsvFields[r])] + Cells(programs, CsvFields[r]);
      rows := rows + [Join(row, ",")];
    }
    assert rows == CsvRows(programs);
    csv := Join(rows, "\n");
  }

  /** No title, university or exported field of the saved programs holds the character `c`. */
  predicate NoBreaks(programs: seq<Program>, c: char) {
    forall i | 0 <= i < |programs| ::
      && c !in programs[i].title && c !in programs[i].university
      && forall f: Field :: Value(programs[i], f).Some? ==> c !in Value(programs[i], f).value
  }

  lemma CellKeepsAbsentChar(v: Option<string>, c: char)
    requires c != '"' && c !in "Not specified"
    requires v.Some? ==> c !in v.value
    ensures c !in Cell(v)
  {
  }

  lemma RowKeepsAbsentChar(programs: seq<Program>, f: Field, c: char)
    requires NoBreaks(programs, c) && c != '"' && c != ',' && c !in "Not specified" && c !in Label(f)
    ensures c !in FieldRow(programs, f)
  {
    var items := [Label(f)] + Cells(programs, f);
    forall k | 0 <= k < |items|
      ensures c !in items[k]
    {
      if k > 0 {
        CellKeepsAbsentChar(Value(programs[k - 1], f), c);
      }
    }
    JoinKeepsAbsentChar(items, ",", c);
  }

  /**
   * When no saved text holds a line break, the CSV has exactly seven lines: splitting it
   * at line breaks gives back the header line and the six field rows, in order.
   */
  lemma CsvLines(programs: seq<Program>)
    requires NoBreaks(programs, '\n')
    ensures |CsvRows(programs)| == 7
    ensures Split(Join(CsvRows(programs), "\n"), '\n') == CsvRows(programs)
  {
    var rows := CsvRows(programs);
    LinesKeepNoBreak(programs);
    SplitJoin(rows, '\n');
  }

  lemma LinesKeepNoBreak(programs: seq<Program>)
    requires NoBreaks(programs, '\n')
    ensures forall k | 0 <= k < |CsvRows(programs)| :: '\n' !in CsvRows(programs)[k]
  {
    var rows := CsvRows(programs);
    JoinKeepsAbsentChar(Headers(programs), ",", '\n');
    assert '\n' !in rows[0];
    forall k | 1 <= k < |rows|
      ensures '\n' !in rows[k]
    {
      FieldRowNoBreak(programs, k - 1);
    }
  }

  lemma FieldRowNoBreak(programs: seq<Program>, r: nat)
    requires NoBreaks(programs, '\n') && r < |CsvFields|
    ensures '\n' !in CsvRows(programs)[r + 1]
  {
    var f := CsvFields[r];
    assert CsvRows(programs)[r + 1] == FieldRow(programs, f);
    LabelHasNoBreak(f);
    RowKeepsAbsentChar(programs, f, '\n');
  }

  lemma LabelHasNoBreak(f: Field)
    ensures '\n' !in Label(f)
  {
  }

  lemma LabelHasNoComma(f: Field)
    ensures ',' !in Label(f)
  {
  }

  /**
   * When no saved text holds a comma, every row has one item per program plus its label:
   * the header names "university - title" in saved order, and each field row begins with its
   * label followed by the quoted cells.
   */
  lemma CsvRowItems(programs: seq<Program>, r: nat)
    requires NoBreaks(programs, ',')
    requires r < |CsvFields|
    ensures var items := Split(CsvRows(programs)[r + 1], ',');
      && |items| == |programs| + 1
      && items[0] == Label(CsvFields[r])
      && forall i | 0 <= i < |programs| :: items[i + 1] == Cell(Value(programs[i], CsvFields[r]))
    ensures var items := Split(CsvRows(programs)[0], ',');
      && |items| == |programs| + 1
      && items[0] == "Field"
      && forall i | 0 <= i < |programs| :: items[i + 1] == programs[i].university + " - " + programs[i].title
  {
    var f := CsvFields[r];
    assert CsvRows(programs)[r + 1] == FieldRow(programs, f);
    FieldRowItems(programs, f);
    assert CsvRows(programs)[0] == Join(Headers(programs), ",");
    HeaderItems(programs);
  }

  lemma FieldRowItems(programs: seq<Program>, f: Field)
    requires NoBreaks(programs, ',')
    ensures Split(FieldRow(programs, f), ',') == [Label(f)] + Cells(programs, f)
  {
    var row := [Label(f)] + Cells(programs, f);
    LabelHasNoComma(f);
    forall k | 0 <= k < |row|
      ensures ',' !in row[k]
    {
      if k > 0 {
        CellKeepsAbsentChar(Value(programs[k - 1], f), ',');
      }
    }
    SplitJoin(row, ',');
  }

  lemma HeaderItems(programs: seq<Program>)
    requires NoBreaks(programs, ',')
    ensures Split(Join(Headers(programs), ","), ',') == Headers(programs)
  {
    var headers := Headers(programs);
    forall k | 0 <= k < |headers|
      ensures ',' !in headers[k]
    {
    }
    SplitJoin(headers, ',');
  }

  /** The six field rows appear in the fixed order. */
  lemma CsvFieldOrder(programs: seq<Program>)
    ensures |CsvRows(programs)| == 7
    ensures forall r | 0 <= r < 6 :: IsPrefix(Label(CsvFields[r]), CsvRows(programs)[r + 1])
    ensures [Label(CsvFields[0]), Label(CsvFields[1]), Label(CsvFields[2]), Label(CsvFields[3]), Label(CsvFields[4]), Label(CsvFields[5])]
      == ["Tuition", "Duration", "Application Deadline", "Location", "GRE Requirement", "Program URL"]
  {
    forall r | 0 <= r < 6
      ensures IsPrefix(Label(CsvFields[r]), CsvRows(programs)[r + 1])
    {
      JoinStartsWithFirst([Label(CsvFields[r])] + Cells(programs, CsvFields[r]), ",");
    }
  }

  lemma JoinStartsWithFirst(parts: seq<string>, sep: string)
    requires |parts| > 0
    ensures IsPrefix(parts[0], Join(parts, sep))
  {
    if |parts| > 1 {
      assert Join(parts, sep) == parts[0] + (sep + Join(parts[1..], sep));
    }
  }

  // ---------------------------------------------------------------------------
  // The popup's own copy of the store

  class PopupState {
    var savedPrograms: seq<Program>
    var isPremium: bool

    constructor (programs: seq<Program>, premium: bool)
      ensures savedPrograms == programs && isPremium == premium
    {
      savedPrograms := programs;
      isPremium := premium;
    }

    function Header(): string
      reads this
    {
      SavedCount(|savedPrograms|, isPremium)
    }

    /** The remove button's callback: on success the local list drops the records with that id. */
    method OnRemoveResponse(programId: Id, success: bool)
      modifies this
      ensures savedPrograms == (if success then WithoutId(old(savedPrograms), programId) else old(savedPrograms))
      ensures isPremium == old(isPremium)
    {
      if success {
        savedPrograms := WithoutId(savedPrograms, programId);
      }
    }

    /**
     * The storage listener: a change of `savedPrograms` in local storage replaces the
     * popup's list, `[]` when the key was removed; any other change is ignored.
     */
    method OnStorageChanged(isLocal: bool, savedChange: Option<Option<seq<Program>>>)
      modifies this
      ensures savedPrograms == (if isLocal && savedChange.Some? then savedChange.value.GetOr([]) else old(savedPrograms))
      ensures isPremium == old(isPremium)
    {
      if isLocal && savedChange.Some? {
        savedPrograms := savedChange.value.GetOr([]);
      }
    }

    /** `exportComparison`: the CSV for premium users, nothing on the free plan. */
    method ExportComparison() returns (csv: Option<string>)
      ensures csv.Some? <==> isPremium
      ensures csv.Some? ==> csv.value == Join(CsvRows(savedPrograms), "\n")
    {
      if !isPremium {
        return None;
      }
      var data := GenerateCsv(savedPrograms);
      return Some(data);
    }
  }

  /** After a successful remove exactly the records with another id remain, in order. */
  lemma RemoveResponseKeepsOthers(programs: seq<Program>, programId: Id)
    ensures forall p :: p in WithoutId(programs, programId) <==> p in programs && p.id != programId
    ensures forall a, b :: WithoutId(a + b, programId) == WithoutId(a, programId) + WithoutId(b, programId)
  {
    WithoutIdMembers(programs, programId);
    forall a, b
      ensures WithoutId(a + b, programId) == WithoutId(a, programId) + WithoutId(b, programId)
    {
      WithoutIdAppend(a, b, programId);
    }
  }
}
