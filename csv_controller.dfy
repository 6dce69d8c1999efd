/**
 * The pure parts of the CSV controller: the record-to-user mapping of the
 * upload, the empty-input guards of upload and preview, the age-band CASE of
 * the distribution query and the default/overwrite loop that turns the grouped
 * query rows into the four-band report.
 */
module CsvController {
  import opened JsBuiltins
  import opened NestedRecord
  import opened CsvParser

  // ---------------------------------------------------------------------------
  // Record to user row
  // ---------------------------------------------------------------------------

  /** A row handed to bulkCreate. `None` stands for JavaScript's undefined or null. */
  datatype UserRow = UserRow(name: string, age: Option<Val>, address: Option<Val>, additionalInfo: Fields)

  /** The string a template literal makes of a value. */
  function ToText(v: Val): string {
    match v
    case Str(s) => s
    case Num(n) => ShowInt(n)
    case Obj(_) => "[object Object]"
  }

  /** The placeholder stored when a name part is missing. */
  const NoName := "N/A"

  /** `(name && name.firstName && name.lastName) ? `${first} ${last}` : 'N/A'`. */
  function FullName(record: Fields): string {
    var name := Get(record, "name");
    var first := Member(name, "firstName");
    var last := Member(name, "lastName");
    if Truthy(name) && Truthy(first) && Truthy(last) then ToText(first.value) + " " + ToText(last.value)
    else NoName
  }

  /** The properties left after destructuring `name`, `age` and `address` out of the record. */
  function AdditionalInfo(record: Fields): (r: Fields)
    ensures r.Keys == record.Keys - {"name", "age", "address"}
    ensures forall k :: k in r ==> r[k] == record[k]
  {
    map k | k in record && k !in {"name", "age", "address"} :: record[k]
  }

  /** `address || null`. */
  function AddressOf(record: Fields): Option<Val> {
    var address := Get(record, "address");
    if Truthy(address) then address else None
  }

  /** The mapping function of `records.map` in the upload. */
  function ToUser(record: Fields): UserRow {
    UserRow(FullName(record), Get(record, "age"), AddressOf(record), AdditionalInfo(record))
  }

  /** `records.map(...)`: one user per record, in order. */
  function ToUsers(records: seq<Fields>): (r: seq<UserRow>)
    ensures |r| == |records|
    ensures forall k :: 0 <= k < |records| ==> r[k] == ToUser(records[k])
    decreases |records|
  {
    if records == [] then [] else [ToUser(records[0])] + ToUsers(records[1..])
  }

  /** Two string name parts that are both non-empty are joined with one space. */
  lemma {:induction false} FullNameOfParts(record: Fields, first: string, last: string)
    requires Member(Get(record, "name"), "firstName") == Some(Str(first)) && first != ""
    requires Member(Get(record, "name"), "lastName") == Some(Str(last)) && last != ""
    ensures FullName(record) == first + " " + last
  {
  }

  /** A missing or empty name part gives the placeholder, also when there is no name at all. */
  lemma {:induction false} FullNameMissing(record: Fields)
    requires !Truthy(Member(Get(record, "name"), "firstName")) || !Truthy(Member(Get(record, "name"), "lastName"))
    ensures FullName(record) == NoName
  {
  }

  /** Only a record whose name parts are both truthy gets a real name; `name` itself is then an object. */
  lemma {:induction false} FullNameNeedsBothParts(record: Fields)
    ensures FullName(record) != NoName ==>
      Get(record, "name").Some? && Get(record, "name").value.Obj? &&
      Truthy(Member(Get(record, "name"), "firstName")) && Truthy(Member(Get(record, "name"), "lastName"))
  {
  }

  /** The user keeps the age as it is, the address only when truthy, and every other property aside. */
  lemma {:induction false} ToUserKeepsFields(record: Fields)
    ensures ToUser(record).age == Get(record, "age")
    ensures Truthy(Get(record, "address")) ==> ToUser(record).address == Get(record, "address")
    ensures !Truthy(Get(record, "address")) ==> ToUser(record).address == None
    ensures ToUser(record).additionalInfo.Keys == record.Keys - {"name", "age", "address"}
  {
  }

  /** The record put back together from the parts the destructuring takes apart. */
  function Reassemble(name: Option<Val>, age: Option<Val>, address: Option<Val>, rest: Fields): Fields {
    var withName := if name.Some? then rest["name" := name.value] else rest;
    var withAge := if age.Some? then withName["age" := age.value] else withName;
    if address.Some? then withAge["address" := address.value] else withAge
  }

  /** The destructuring `{ name, age, address, ...additional_info }` loses nothing. */
  lemma {:induction false} DestructuringLosesNothing(record: Fields)
    ensures Reassemble(Get(record, "name"), Get(record, "age"), Get(record, "address"), AdditionalInfo(record)) == record
  {
    var r := Reassemble(Get(record, "name"), Get(record, "age"), Get(record, "address"), AdditionalInfo(record));
    assert r.Keys == record.Keys;
    forall k | k in record ensures r[k] == record[k] { }
  }

  // ---------------------------------------------------------------------------
  // Empty-input guards
  // ---------------------------------------------------------------------------

  /** How the upload proceeds after parsing: refused with 400, or handing the users to bulkCreate. */
  datatype UploadStep = NoRecords(status: nat, message: string) | BulkCreate(users: seq<UserRow>)

  const NoRecordsMessage := "No records found in CSV file."

  /** uploadCSV up to bulkCreate. */
  function Upload(records: seq<Fields>): (r: UploadStep)
    ensures r.NoRecords? <==> records == []
    ensures r.NoRecords? ==> r.status == 400 && r.message == NoRecordsMessage
    ensures r.BulkCreate? ==> |r.users| == |records| && r.users == ToUsers(records)
  {
    if |records| == 0 then NoRecords(400, NoRecordsMessage) else BulkCreate(ToUsers(records))
  }

  /** The JSON body of previewCSV. */
  datatype PreviewResponse =
    | NotFound(status: nat, message: string)
    | Parsed(status: nat, totalRecords: nat, records: seq<Fields>)

  /** previewCSV after parsing. */
  function Preview(records: seq<Fields>): (r: PreviewResponse)
    ensures r.NotFound? <==> records == []
    ensures r.NotFound? ==> r.status == 404 && r.message == NoRecordsMessage
    ensures r.Parsed? ==> r.status == 200 && r.records == records && r.totalRecords == |r.records|
  {
    if |records| == 0 then NotFound(404, NoRecordsMessage) else Parsed(200, |records|, records)
  }

  // ---------------------------------------------------------------------------
  // Age bands
  // ---------------------------------------------------------------------------

  datatype AgeGroup = Under20 | From20To40 | From40To60 | Over60

  /** The group key the query reports for a band. */
  function Label(g: AgeGroup): string {
    match g
    case Under20 => "< 20"
    case From20To40 => "20 to 40"
    case From40To60 => "40 to 60"
    case Over60 => "> 60"
  }

  /** The WHEN condition of each band. */
  predicate InBand(g: AgeGroup, age: int) {
    match g
    case Under20 => age < 20
    case From20To40 => age >= 20 && age <= 40
    case From40To60 => age > 40 && age <= 60
    case Over60 => age > 60
  }

  /** The CASE expression: the first WHEN that holds; None is the SQL NULL of a missing ELSE. */
  function CaseAgeGroup(age: int): Option<AgeGroup> {
    if age < 20 then Some(Under20)
    else if age >= 20 && age <= 40 then Some(From20To40)
    else if age > 40 && age <= 60 then Some(From40To60)
    else if age > 60 then Some(Over60)
    else None
  }

  /** The CASE never falls through: every integer age lies in a band. */
  lemma {:induction false} BandsCoverEveryAge(age: int)
    ensures CaseAgeGroup(age).Some?
    ensures InBand(CaseAgeGroup(age).value, age)
  {
  }

  /** The bands do not overlap, so the order of the WHENs does not matter. */
  lemma {:induction false} BandsAreDisjoint(g: AgeGroup, h: AgeGroup, age: int)
    requires InBand(g, age) && InBand(h, age)
    ensures g == h
  {
  }

  /** The CASE picks exactly the band whose condition holds. */
  lemma {:induction false} CaseIsBand(g: AgeGroup, age: int)
    ensures CaseAgeGroup(age) == Some(g) <==> InBand(g, age)
  {
  }

  /** The four keys differ, so the report has four entries. */
  lemma {:induction false} LabelsAreDistinct(g: AgeGroup, h: AgeGroup)
    requires Label(g) == Label(h)
    ensures g == h
  {
  }

  /** How many of the ages fall in a band. */
  function CountIn(ages: seq<int>, g: AgeGroup): nat
    decreases |ages|
  {
    if ages == [] then 0
    else (if InBand(g, ages[0]) then 1 else 0) + CountIn(ages[1..], g)
  }

  /** Grouping by band counts every user exactly once. */
  lemma {:induction false} BandCountsAddUp(ages: seq<int>)
    ensures CountIn(ages, Under20) + CountIn(ages, From20To40) + CountIn(ages, From40To60) + CountIn(ages, Over60) == |ages|
    decreases |ages|
  {
    if ages != [] {
      BandCountsAddUp(ages[1..]);
      BandsCoverEveryAge(ages[0]);
      var g := CaseAgeGroup(ages[0]).value;
      forall h | InBand(h, ages[0]) ensures h == g {
        BandsAreDisjoint(g, h, ages[0]);
      }
    }
  }

  // ---------------------------------------------------------------------------
  // Distribution report
  // ---------------------------------------------------------------------------

  /** One row of the grouped query: the group key (None for NULL) and the COUNT as the driver returns it. */
  datatype GroupRow = GroupRow(ageGroup: Option<string>, count: string)

  /**
   * An entry of `distributionMap`: the initial 0, or the share of `count` users
   * out of `total`, which the source formats as a percentage with two decimals.
   */
  datatype Share = Zero | Percent(count: Option<int>, total: nat)

  /** The four keys of `distributionMap`. */
  function Labels(): set<string> {
    {Label(Under20), Label(From20To40), Label(From40To60), Label(Over60)}
  }

  /** The map before the loop: every band 0. */
  function InitialDistribution(): (r: map<string, Share>)
    ensures r.Keys == Labels()
    ensures forall k :: k in r ==> r[k] == Zero
  {
    map k | k in Labels() :: Zero
  }

  /** The entry a band ends with: the share of the last row carrying its key, or 0 when no row does. */
  function LastShare(rows: seq<GroupRow>, key: string, total: nat): Share
    decreases |rows|
  {
    if rows == [] then Zero
    else
      var row := rows[|rows| - 1];
      if row.ageGroup == Some(key) then Percent(ParseInt(row.count), total)
      else LastShare(rows[..|rows| - 1], key, total)
  }

  /**
   * generateAgeDistributionReport after the two queries: null when there are no
   * users, otherwise every band starts at 0 and is overwritten by each row whose
   * key is one of the bands.
   */
  method AgeDistribution(rows: seq<GroupRow>, totalUsers: nat) returns (report: Option<map<string, Share>>)
    ensures report.None? <==> totalUsers == 0
    ensures report.Some? ==> report.value.Keys == Labels()
    ensures report.Some? ==> forall key :: key in report.value ==> report.value[key] == LastShare(rows, key, totalUsers)
  {
    if totalUsers == 0 {
      return None;
    }
    var distribution := InitialDistribution();
    var i := 0;
    while i < |rows|
      invariant 0 <= i <= |rows|
      invariant distribution.Keys == Labels()
      invariant forall key :: key in distribution ==> distribution[key] == LastShare(rows[..i], key, totalUsers)
    {
      var row := rows[i];
      assert rows[..i + 1][..i] == rows[..i];
      if row.ageGroup.Some? && row.ageGroup.value in distribution {
        distribution := distribution[row.ageGroup.value := Percent(ParseInt(row.count), totalUsers)];
      }
      i := i + 1;
    }
    assert rows[..|rows|] == rows;
    return Some(distribution);
  }

  /** A band that no row names stays at 0. */
  lemma {:induction false} UnnamedBandStaysZero(rows: seq<GroupRow>, key: string, total: nat)
    requires forall k :: 0 <= k < |rows| ==> rows[k].ageGroup != Some(key)
    ensures LastShare(rows, key, total) == Zero
    decreases |rows|
  {
    if rows != [] {
      UnnamedBandStaysZero(rows[..|rows| - 1], key, total);
    }
  }

  /** A band named by exactly one row, as GROUP BY produces, gets that row's share. */
  lemma {:induction false} NamedBandTakesItsRow(rows: seq<GroupRow>, key: string, total: nat, j: nat)
    requires j < |rows| && rows[j].ageGroup == Some(key)
    requires forall k :: 0 <= k < |rows| && k != j ==> rows[k].ageGroup != Some(key)
    ensures LastShare(rows, key, total) == Percent(ParseInt(rows[j].count), total)
    decreases |rows|
  {
    var n := |rows| - 1;
    if j < n {
      var front := rows[..n];
      forall k | 0 <= k < |front| && k != j ensures front[k].ageGroup != Some(key) {
        assert front[k] == rows[k];
      }
      NamedBandTakesItsRow(front, key, total, j);
    }
  }

  // ---------------------------------------------------------------------------
  // Parser and controller together
  // ---------------------------------------------------------------------------

  /** A file with only a header line (or nothing) is refused by the upload and not found by the preview. */
  lemma {:induction false} HeaderOnlyFileIsRefused(lines: seq<string>, failing: set<nat>)
    requires NonBlankCount(lines) <= 1
    ensures Upload(ParsedRecords(lines, failing)).NoRecords?
    ensures Upload(ParsedRecords(lines, failing)).status == 400
    ensures Preview(ParsedRecords(lines, failing)).NotFound?
  {
    HeaderOnlyGivesNoRecords(lines, failing);
  }

  /** When no line throws, the preview counts one record per data line. */
  lemma {:induction false} PreviewCountsDataLines(lines: seq<string>)
    requires NonBlankCount(lines) >= 2
    ensures Preview(ParsedRecords(lines, {})).Parsed?
    ensures Preview(ParsedRecords(lines, {})).totalRecords == NonBlankCount(lines) - 1
  {
    EveryDataLineYieldsARecord(lines);
  }
}
