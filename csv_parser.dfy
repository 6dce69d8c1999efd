/**
 * The line handler of the CSV parser (parseCSV): blank lines are skipped, the
 * first non-blank line gives the headers, every later non-blank line is split,
 * padded with empty strings up to the header count and built into one nested
 * record by setting each header path in order. A record that lacks a mandatory
 * field is only reported, never dropped; a line whose processing throws is
 * dropped and parsing goes on with the next line. A blank line is one that is
 * AllWhitespace, which is what `!line.trim()` tests (TrimEmptyIffWhitespace).
 */
module CsvParser {
  import opened JsBuiltins
  import opened CsvLine
  import opened NestedRecord

  // ---------------------------------------------------------------------------
  // Padding and building one record
  // ---------------------------------------------------------------------------

  /** The values after short rows are padded: never shorter than `width`, never truncated. */
  function Padded(values: seq<string>, width: nat): (r: seq<string>)
    ensures |r| == if |values| < width then width else |values|
    decreases width - |values|
  {
    if |values| < width then Padded(values + [""], width) else values
  }

  /** Padding keeps the original values, in place, at the front. */
  lemma {:induction false} PaddedKeepsValues(values: seq<string>, width: nat)
    ensures Padded(values, width)[..|values|] == values
    decreases width - |values|
  {
    if |values| < width {
      var r := Padded(values, width);
      PaddedKeepsValues(values + [""], width);
      assert r[..|values|] == r[..|values| + 1][..|values|];
    }
  }

  /** Every entry added by the padding is the empty string. */
  lemma {:induction false} PaddedWithEmpty(values: seq<string>, width: nat, k: nat)
    requires |values| <= k < |Padded(values, width)|
    ensures Padded(values, width)[k] == ""
    decreases width - |values|
  {
    if k > |values| {
      PaddedWithEmpty(values + [""], width, k);
    } else {
      PaddedKeepsValues(values + [""], width);
      var r := Padded(values, width);
      assert r[k] == r[..|values| + 1][k];
    }
  }

  /** `while (values.length < headers.length) values.push('')`. */
  method Pad(values: seq<string>, width: nat) returns (padded: seq<string>)
    ensures padded == Padded(values, width)
  {
    padded := values;
    while |padded| < width
      invariant Padded(padded, width) == Padded(values, width)
      decreases width - |padded|
    {
      padded := padded + [""];
    }
  }

  /**
   * The record built from the headers and the values: each header path in order,
   * skipping an index that has no value (the `!== undefined` guard).
   */
  function Build(headers: seq<string>, values: seq<string>): Fields
    decreases |headers|
  {
    if headers == [] then map[]
    else
      var n := |headers| - 1;
      var m := Build(headers[..n], values);
      if n < |values| then Assign(m, SplitOn(headers[n], '.'), values[n]) else m
  }

  /** `headers.forEach(...)` on a fresh `record`. */
  method BuildRecord(headers: seq<string>, values: seq<string>) returns (record: RecordObject)
    ensures fresh(record)
    ensures record.fields == Build(headers, values)
  {
    record := new RecordObject();
    var index := 0;
    while index < |headers|
      invariant 0 <= index <= |headers|
      invariant record.fields == Build(headers[..index], values)
    {
      assert headers[..index + 1][..index] == headers[..index];
      if index < |values| {
        record.SetNestedValue(headers[index], values[index]);
      }
      index := index + 1;
    }
    assert headers[..|headers|] == headers;
  }

  /** The record a data line yields under the given headers. */
  function RowRecord(headers: seq<string>, line: string): Fields {
    Build(headers, Padded(SplitLine(line), |headers|))
  }

  /** The first key of a header path: the top-level property it sets. */
  function TopKey(header: string): string {
    SplitOn(header, '.')[0]
  }

  /** The first keys of the headers. */
  function TopKeys(headers: seq<string>): set<string>
    decreases |headers|
  {
    if headers == [] then {} else TopKeys(headers[..|headers| - 1]) + {TopKey(headers[|headers| - 1])}
  }

  lemma {:induction false} TopKeysOfEach(headers: seq<string>)
    ensures TopKeys(headers) == set j | 0 <= j < |headers| :: TopKey(headers[j])
    decreases |headers|
  {
    if headers != [] {
      var n := |headers| - 1;
      var front := headers[..n];
      TopKeysOfEach(front);
      assert (set j | 0 <= j < |headers| :: TopKey(headers[j])) ==
             (set j | 0 <= j < |front| :: TopKey(front[j])) + {TopKey(headers[n])} by {
        forall j | 0 <= j < |front| ensures front[j] == headers[j] { }
      }
    }
  }

  lemma {:induction false} BuildTopKeys(headers: seq<string>, values: seq<string>)
    requires |values| >= |headers|
    ensures Build(headers, values).Keys == TopKeys(headers)
    decreases |headers|
  {
    if headers != [] {
      BuildTopKeys(headers[..|headers| - 1], values);
    }
  }

  /** A record built from enough values has exactly one top-level property per header's first key. */
  lemma {:induction false} BuildKeys(headers: seq<string>, values: seq<string>)
    requires |values| >= |headers|
    ensures Build(headers, values).Keys == set j | 0 <= j < |headers| :: TopKey(headers[j])
  {
    BuildTopKeys(headers, values);
    TopKeysOfEach(headers);
  }

  /** Values beyond the header count play no part in the record. */
  lemma {:induction false} BuildIgnoresExtraValues(headers: seq<string>, values: seq<string>, others: seq<string>)
    requires |values| >= |headers| && |others| >= |headers|
    requires values[..|headers|] == others[..|headers|]
    ensures Build(headers, values) == Build(headers, others)
    decreases |headers|
  {
    if headers != [] {
      var n := |headers| - 1;
      assert values[..n] == values[..|headers|][..n];
      assert others[..n] == others[..|headers|][..n];
      assert values[n] == values[..|headers|][n];
      assert others[n] == others[..|headers|][n];
      BuildIgnoresExtraValues(headers[..n], values, others);
    }
  }

  /**
   * A header's value is found at its path, as stored by the last key, unless a
   * later header writes on or under that path.
   */
  lemma {:induction false} BuildReachesField(headers: seq<string>, values: seq<string>, j: nat)
    requires j < |headers| && j < |values|
    requires forall i {:trigger SplitOn(headers[i], '.')} :: j < i < |headers| ==> Diverge(SplitOn(headers[j], '.'), SplitOn(headers[i], '.'))
    ensures var keys := SplitOn(headers[j], '.');
            Lookup(Build(headers, values), keys) == Some(LeafValue(keys[|keys| - 1], values[j]))
  {
    var keys := SplitOn(headers[j], '.');
    var found := Some(LeafValue(keys[|keys| - 1], values[j]));
    assert headers[..j + 1][j] == headers[j];
    BuildLastReaches(headers[..j + 1], values, keys);
    BuildKeepsPath(headers, values, j + 1, keys, found);
  }

  /** The last header's path leads to its value. */
  lemma {:induction false} BuildLastReaches(headers: seq<string>, values: seq<string>, keys: seq<string>)
    requires 1 <= |headers| <= |values|
    requires keys == SplitOn(headers[|headers| - 1], '.')
    ensures Lookup(Build(headers, values), keys) == Some(LeafValue(keys[|keys| - 1], values[|headers| - 1]))
  {
    AssignReachesLeaf(Build(headers[..|headers| - 1], values), keys, values[|headers| - 1]);
  }

  /** Headers whose paths diverge from `p` leave what is found at `p` alone. */
  lemma {:induction false} BuildKeepsPath(headers: seq<string>, values: seq<string>, b: nat, p: seq<string>, found: Option<Val>)
    requires b <= |headers| && |p| >= 1
    requires Lookup(Build(headers[..b], values), p) == found
    requires forall i {:trigger SplitOn(headers[i], '.')} :: b <= i < |headers| ==> Diverge(p, SplitOn(headers[i], '.'))
    ensures Lookup(Build(headers, values), p) == found
    decreases |headers|
  {
    if |headers| == b {
      assert headers[..b] == headers;
    } else {
      var n := |headers| - 1;
      var front := headers[..n];
      assert front[..b] == headers[..b];
      DivergeFromFront(headers, b, p);
      BuildKeepsPath(front, values, b, p, found);
      BuildLastOffPath(headers, values, p, found);
    }
  }

  /** A path that diverges from the later headers diverges from those among them before the last one. */
  lemma {:induction false} DivergeFromFront(headers: seq<string>, b: nat, p: seq<string>)
    requires b < |headers|
    requires forall i {:trigger SplitOn(headers[i], '.')} :: b <= i < |headers| ==> Diverge(p, SplitOn(headers[i], '.'))
    ensures var front := headers[..|headers| - 1];
            forall i {:trigger SplitOn(front[i], '.')} :: b <= i < |front| ==> Diverge(p, SplitOn(front[i], '.'))
  {
    var front := headers[..|headers| - 1];
    forall i | b <= i < |front| ensures Diverge(p, SplitOn(front[i], '.')) {
      assert front[i] == headers[i];
    }
  }

  /** The last header leaves alone every path that diverges from its own. */
  lemma {:induction false} BuildLastOffPath(headers: seq<string>, values: seq<string>, p: seq<string>, found: Option<Val>)
    requires |headers| >= 1 && |p| >= 1
    requires Lookup(Build(headers[..|headers| - 1], values), p) == found
    requires |headers| - 1 < |values| ==> Diverge(p, SplitOn(headers[|headers| - 1], '.'))
    ensures Lookup(Build(headers, values), p) == found
  {
    var n := |headers| - 1;
    var m := Build(headers[..n], values);
    if n < |values| {
      AssignOffPath(m, SplitOn(headers[n], '.'), values[n], p);
    }
  }

  /** A row's record depends only on its first `|headers|` fields once padded. */
  lemma {:induction false} RowIgnoresExtraFields(headers: seq<string>, line: string, other: string)
    requires Padded(SplitLine(line), |headers|)[..|headers|] == Padded(SplitLine(other), |headers|)[..|headers|]
    ensures RowRecord(headers, line) == RowRecord(headers, other)
  {
    BuildIgnoresExtraValues(headers, Padded(SplitLine(line), |headers|), Padded(SplitLine(other), |headers|));
  }

  /** Padding makes every header set its top-level property, however short the row. */
  lemma {:induction false} RowHasEveryHeader(headers: seq<string>, line: string)
    ensures RowRecord(headers, line).Keys == set j | 0 <= j < |headers| :: TopKey(headers[j])
  {
    BuildKeys(headers, Padded(SplitLine(line), |headers|));
  }

  /** `record.name?.firstName && record.name?.lastName && record.age !== undefined`. */
  predicate HasMandatoryFields(record: Fields) {
    Truthy(Member(Get(record, "name"), "firstName")) &&
    Truthy(Member(Get(record, "name"), "lastName")) &&
    "age" in record
  }

  /** The body of the `try` block for one data line: split, pad, build. */
  method ReadRow(headers: seq<string>, line: string) returns (record: Fields)
    ensures record == RowRecord(headers, line)
  {
    var values := SplitCSVLine(line);
    values := Pad(values, |headers|);
    var built := BuildRecord(headers, values);
    record := built.fields;
  }

  // ---------------------------------------------------------------------------
  // The line-by-line state machine
  // ---------------------------------------------------------------------------

  /** What handling one line did; `Emitted(false)` is the case that logs the missing-field warning. */
  datatype LineOutcome = Skipped | HeaderRead(count: nat) | Emitted(complete: bool) | Dropped

  /**
   * The state kept by parseCSV across 'line' events. `failing` holds the 1-based
   * numbers of the lines whose processing throws.
   */
  class CsvReader {
    var records: seq<Fields>
    var headers: seq<string>
    var lineNumber: nat
    const failing: set<nat>

    constructor (failing: set<nat>)
      ensures records == [] && headers == [] && lineNumber == 0
      ensures this.failing == failing
    {
      records := [];
      headers := [];
      lineNumber := 0;
      this.failing := failing;
    }

    /** The 'line' event handler. */
    method OnLine(line: string) returns (outcome: LineOutcome)
      modifies this
      ensures lineNumber == old(lineNumber) + 1
      ensures AllWhitespace(line) ==>
        outcome == Skipped && headers == old(headers) && records == old(records)
      ensures !AllWhitespace(line) && old(headers) == [] ==>
        outcome == HeaderRead(|headers|) && headers == SplitLine(line) && records == old(records)
      ensures !AllWhitespace(line) && old(headers) != [] && lineNumber in failing ==>
        outcome == Dropped && headers == old(headers) && records == old(records)
      ensures !AllWhitespace(line) && old(headers) != [] && lineNumber !in failing ==>
        var record := RowRecord(old(headers), line);
        outcome == Emitted(HasMandatoryFields(record)) &&
        headers == old(headers) && records == old(records) + [record]
    {
      lineNumber := lineNumber + 1;
      TrimEmptyIffWhitespace(line);
      if Trim(line) == [] {
        return Skipped;
      }
      if |headers| == 0 {
        headers := SplitCSVLine(line);
        return HeaderRead(|headers|);
      }
      if lineNumber in failing {
        return Dropped;
      }
      var record := ReadRow(headers, line);
      outcome := Emitted(HasMandatoryFields(record));
      records := records + [record];
    }

    /** The state after the lines `seen`, by the reference definition. */
    predicate Tracks(seen: seq<string>)
      reads this
    {
      lineNumber == |seen| && headers == HeaderOf(seen) && records == ParsedRecords(seen, failing)
    }

    /** Handling line `i` of the file keeps the reader on the reference definition. */
    method Feed(lines: seq<string>, i: nat)
      requires i < |lines| && Tracks(lines[..i])
      modifies this
      ensures Tracks(lines[..i + 1])
    {
      ghost var headers0, records0 := headers, records;
      var _ := OnLine(lines[i]);
      StepMatchesReference(lines[..i], lines[i], failing, headers0, records0, headers, records);
      PrefixStep(lines, i);
    }
  }

  /** The lines up to and including line `i`. */
  lemma {:induction false} PrefixStep(lines: seq<string>, i: nat)
    requires i < |lines|
    ensures lines[..i + 1] == lines[..i] + [lines[i]]
  {
  }

  /** parseCSV over the lines of the file, in order. */
  method ParseCSV(lines: seq<string>, failing: set<nat>) returns (records: seq<Fields>)
    ensures records == ParsedRecords(lines, failing)
  {
    var reader := new CsvReader(failing);
    var i := 0;
    while i < |lines|
      invariant 0 <= i <= |lines|
      invariant reader.failing == failing && reader.Tracks(lines[..i])
    {
      reader.Feed(lines, i);
      i := i + 1;
    }
    assert lines[..|lines|] == lines;
    records := reader.records;
  }

  // ---------------------------------------------------------------------------
  // Reference definition of the parse result
  // ---------------------------------------------------------------------------

  /** The index of the first non-blank line, if any. */
  function FirstNonBlank(lines: seq<string>): (r: Option<nat>)
    ensures r.Some? ==> r.value < |lines| && !AllWhitespace(lines[r.value])
    ensures r.Some? ==> forall k :: 0 <= k < r.value ==> AllWhitespace(lines[k])
    ensures r.None? ==> forall k :: 0 <= k < |lines| ==> AllWhitespace(lines[k])
    decreases |lines|
  {
    if lines == [] then None
    else if !AllWhitespace(lines[0]) then Some(0)
    else match FirstNonBlank(lines[1..])
      case None => None
      case Some(j) => Some(j + 1)
  }

  /** The first non-blank line is unique. */
  lemma {:induction false} FirstNonBlankAt(lines: seq<string>, h: nat)
    requires h < |lines| && !AllWhitespace(lines[h])
    requires forall k :: 0 <= k < h ==> AllWhitespace(lines[k])
    ensures FirstNonBlank(lines) == Some(h)
  {
  }

  /** The headers: the fields of the first non-blank line, or none yet. */
  function HeaderOf(lines: seq<string>): seq<string> {
    match FirstNonBlank(lines)
    case None => []
    case Some(h) => SplitLine(lines[h])
  }

  /**
   * The data lines among `ls` (the first of which has index `base`) that yield
   * a record: the non-blank ones that do not throw, in order.
   */
  function DataLines(ls: seq<string>, base: nat, failing: set<nat>): seq<string>
    decreases |ls|
  {
    if ls == [] then []
    else
      var rest := DataLines(ls[1..], base + 1, failing);
      if AllWhitespace(ls[0]) || base + 1 in failing then rest else [ls[0]] + rest
  }

  /** One record per kept line, in order (`kept.map(line => RowRecord(headers, line))`). */
  function RecordsOf(headers: seq<string>, kept: seq<string>): (r: seq<Fields>)
    ensures |r| == |kept|
    decreases |kept|
  {
    if kept == [] then [] else [RowRecord(headers, kept[0])] + RecordsOf(headers, kept[1..])
  }

  /** The record at each place is the one built from the kept line at that place. */
  lemma {:induction false} RecordsOfAt(headers: seq<string>, kept: seq<string>, k: nat)
    requires k < |kept|
    ensures RecordsOf(headers, kept)[k] == RowRecord(headers, kept[k])
    decreases k
  {
    if k > 0 {
      RecordsOfAt(headers, kept[1..], k - 1);
    }
  }

  lemma {:induction false} RecordsOfAppend(headers: seq<string>, a: seq<string>, b: seq<string>)
    ensures RecordsOf(headers, a + b) == RecordsOf(headers, a) + RecordsOf(headers, b)
    decreases |a|
  {
    if a == [] {
      assert a + b == b;
    } else {
      assert (a + b)[0] == a[0];
      assert (a + b)[1..] == a[1..] + b;
      RecordsOfAppend(headers, a[1..], b);
    }
  }

  /** The lines that yield a record: the non-blank lines after the header line that do not throw. */
  function KeptLines(lines: seq<string>, failing: set<nat>): seq<string> {
    match FirstNonBlank(lines)
    case None => []
    case Some(h) => DataLines(lines[h + 1..], h + 1, failing)
  }

  lemma {:induction false} RecordsOfSnoc(headers: seq<string>, kept: seq<string>, line: string)
    ensures RecordsOf(headers, kept + [line]) == RecordsOf(headers, kept) + [RowRecord(headers, line)]
  {
    RecordsOfAppend(headers, kept, [line]);
    RecordsOfSingle(headers, line);
  }

  lemma {:induction false} RecordsOfSingle(headers: seq<string>, line: string)
    ensures RecordsOf(headers, [line]) == [RowRecord(headers, line)]
  {
    assert [line][1..] == [];
    assert RecordsOf(headers, [line]) == [RowRecord(headers, line)] + RecordsOf(headers, []);
  }

  /** What parseCSV resolves with: one record per kept line, built under the headers. */
  function ParsedRecords(lines: seq<string>, failing: set<nat>): seq<Fields> {
    RecordsOf(HeaderOf(lines), KeptLines(lines, failing))
  }

  /** The number of non-blank lines. */
  function NonBlankCount(lines: seq<string>): nat
    decreases |lines|
  {
    if lines == [] then 0
    else (if AllWhitespace(lines[0]) then 0 else 1) + NonBlankCount(lines[1..])
  }

  /** Handling the lines of two consecutive stretches is handling each in turn. */
  lemma {:induction false} DataLinesAppend(a: seq<string>, b: seq<string>, base: nat, failing: set<nat>)
    ensures DataLines(a + b, base, failing) == DataLines(a, base, failing) + DataLines(b, base + |a|, failing)
    decreases |a|
  {
    if a == [] {
      assert a + b == b;
    } else {
      assert (a + b)[0] == a[0];
      assert (a + b)[1..] == a[1..] + b;
      DataLinesAppend(a[1..], b, base + 1, failing);
    }
  }

  lemma {:induction false} DataLinesSingle(line: string, base: nat, failing: set<nat>)
    ensures DataLines([line], base, failing) == if AllWhitespace(line) || base + 1 in failing then [] else [line]
  {
    assert [line][0] == line;
    assert [line][1..] == [];
  }

  /** Whether a line throws matters only for the lines in the stretch. */
  lemma {:induction false} DataLinesOnlySeeTheirLines(ls: seq<string>, base: nat, failing: set<nat>, other: set<nat>)
    requires forall n :: base < n <= base + |ls| ==> (n in failing <==> n in other)
    ensures DataLines(ls, base, failing) == DataLines(ls, base, other)
    decreases |ls|
  {
    if ls != [] {
      assert base + 1 in failing <==> base + 1 in other;
      DataLinesOnlySeeTheirLines(ls[1..], base + 1, failing, other);
    }
  }

  lemma {:induction false} NonBlankCountAppend(a: seq<string>, b: seq<string>)
    ensures NonBlankCount(a + b) == NonBlankCount(a) + NonBlankCount(b)
    decreases |a|
  {
    if a == [] {
      assert a + b == b;
    } else {
      assert (a + b)[0] == a[0];
      assert (a + b)[1..] == a[1..] + b;
      NonBlankCountAppend(a[1..], b);
    }
  }

  lemma {:induction false} NonBlankCountOfBlank(ls: seq<string>)
    requires forall k :: 0 <= k < |ls| ==> AllWhitespace(ls[k])
    ensures NonBlankCount(ls) == 0
    decreases |ls|
  {
    if ls != [] {
      NonBlankCountOfBlank(ls[1..]);
    }
  }

  /** When no line throws, every non-blank line yields one record. */
  lemma {:induction false} DataLinesCount(ls: seq<string>, base: nat)
    ensures |DataLines(ls, base, {})| == NonBlankCount(ls)
    decreases |ls|
  {
    if ls != [] {
      DataLinesCount(ls[1..], base + 1);
    }
  }

  /** Never more records than non-blank lines. */
  lemma {:induction false} DataLinesAtMost(ls: seq<string>, base: nat, failing: set<nat>)
    ensures |DataLines(ls, base, failing)| <= NonBlankCount(ls)
    decreases |ls|
  {
    if ls != [] {
      DataLinesAtMost(ls[1..], base + 1, failing);
    }
  }

  /** The lines split around the first non-blank one. */
  lemma {:induction false} NonBlankCountAroundHeader(lines: seq<string>, h: nat)
    requires FirstNonBlank(lines) == Some(h)
    ensures NonBlankCount(lines) == 1 + NonBlankCount(lines[h + 1..])
  {
    assert lines == lines[..h] + ([lines[h]] + lines[h + 1..]);
    NonBlankCountAppend(lines[..h], [lines[h]] + lines[h + 1..]);
    NonBlankCountAppend([lines[h]], lines[h + 1..]);
    NonBlankCountOfBlank(lines[..h]);
    assert [lines[h]][1..] == [];
  }

  // ---------------------------------------------------------------------------
  // The state machine against the reference definition
  // ---------------------------------------------------------------------------

  /** One more line changes the headers only when none were read and the line is not blank. */
  lemma {:induction false} HeaderOfSnoc(lines: seq<string>, line: string)
    ensures HeaderOf(lines) == [] <==> FirstNonBlank(lines).None?
    ensures HeaderOf(lines + [line]) ==
      if HeaderOf(lines) == [] && !AllWhitespace(line) then SplitLine(line) else HeaderOf(lines)
  {
    FirstNonBlankSnoc(lines, line);
  }

  lemma {:induction false} FirstNonBlankSnoc(lines: seq<string>, line: string)
    ensures FirstNonBlank(lines + [line]) ==
      if FirstNonBlank(lines).Some? then FirstNonBlank(lines)
      else if AllWhitespace(line) then None else Some(|lines|)
  {
    var all := lines + [line];
    match FirstNonBlank(lines)
    case Some(h) =>
      assert all[h] == lines[h];
      FirstNonBlankAt(all, h);
    case None =>
      if !AllWhitespace(line) {
        assert all[|lines|] == line;
        FirstNonBlankAt(all, |lines|);
      } else {
        assert forall k :: 0 <= k < |all| ==> all[k] == line || all[k] == lines[k];
      }
  }

  /** One more line is kept exactly when it comes after the header line, is not blank and does not throw. */
  lemma {:induction false} KeptLinesSnoc(lines: seq<string>, line: string, failing: set<nat>)
    ensures KeptLines(lines + [line], failing) ==
      if FirstNonBlank(lines).None? || AllWhitespace(line) || |lines| + 1 in failing then KeptLines(lines, failing)
      else KeptLines(lines, failing) + [line]
  {
    FirstNonBlankSnoc(lines, line);
    if FirstNonBlank(lines).None? {
      KeptLinesBeforeHeader(lines, line, failing);
    } else {
      KeptLinesAfterHeader(lines, line, failing, FirstNonBlank(lines).value);
      DataLinesSingle(line, |lines|, failing);
    }
  }

  lemma {:induction false} KeptLinesBeforeHeader(lines: seq<string>, line: string, failing: set<nat>)
    requires FirstNonBlank(lines).None?
    ensures KeptLines(lines + [line], failing) == []
  {
    var all := lines + [line];
    FirstNonBlankSnoc(lines, line);
    if !AllWhitespace(line) {
      assert all[|lines| + 1..] == [];
    }
  }

  lemma {:induction false} KeptLinesAfterHeader(lines: seq<string>, line: string, failing: set<nat>, h: nat)
    requires FirstNonBlank(lines) == Some(h)
    ensures KeptLines(lines + [line], failing) ==
      KeptLines(lines, failing) + DataLines([line], |lines|, failing)
  {
    var all := lines + [line];
    FirstNonBlankSnoc(lines, line);
    assert all[h + 1..] == lines[h + 1..] + [line];
    DataLinesAppend(lines[h + 1..], [line], h + 1, failing);
  }

  /** One more line adds at most its own record, and only after the header line. */
  lemma {:induction false} ParsedRecordsSnoc(lines: seq<string>, line: string, failing: set<nat>)
    ensures ParsedRecords(lines + [line], failing) ==
      if FirstNonBlank(lines).None? || AllWhitespace(line) || |lines| + 1 in failing then ParsedRecords(lines, failing)
      else ParsedRecords(lines, failing) + [RowRecord(HeaderOf(lines), line)]
  {
    var all := lines + [line];
    HeaderOfSnoc(lines, line);
    KeptLinesSnoc(lines, line, failing);
    if FirstNonBlank(lines).None? {
      assert KeptLines(all, failing) == [] && KeptLines(lines, failing) == [];
      assert ParsedRecords(all, failing) == [] == ParsedRecords(lines, failing);
    } else {
      var hs := HeaderOf(lines);
      assert HeaderOf(all) == hs;
      if AllWhitespace(line) || |lines| + 1 in failing {
        assert KeptLines(all, failing) == KeptLines(lines, failing);
      } else {
        RecordsOfSnoc(hs, KeptLines(lines, failing), line);
      }
    }
  }

  /** The effect of OnLine on the reader, as its contract states it, keeps the reader on the reference definition. */
  lemma {:induction false} StepMatchesReference(seen: seq<string>, line: string, failing: set<nat>,
                             headers: seq<string>, records: seq<Fields>,
                             headers': seq<string>, records': seq<Fields>)
    requires headers == HeaderOf(seen) && records == ParsedRecords(seen, failing)
    requires AllWhitespace(line) ==> headers' == headers && records' == records
    requires !AllWhitespace(line) && headers == [] ==> headers' == SplitLine(line) && records' == records
    requires !AllWhitespace(line) && headers != [] && |seen| + 1 in failing ==> headers' == headers && records' == records
    requires !AllWhitespace(line) && headers != [] && |seen| + 1 !in failing ==>
      headers' == headers && records' == records + [RowRecord(headers, line)]
    ensures headers' == HeaderOf(seen + [line]) && records' == ParsedRecords(seen + [line], failing)
  {
    HeaderOfSnoc(seen, line);
    ParsedRecordsSnoc(seen, line, failing);
  }

  // ---------------------------------------------------------------------------
  // Properties of the parse result
  // ---------------------------------------------------------------------------

  /** A blank line anywhere at the end leaves the result as it was. */
  lemma {:induction false} BlankLineIgnored(lines: seq<string>, line: string, failing: set<nat>)
    requires AllWhitespace(line)
    ensures ParsedRecords(lines + [line], failing) == ParsedRecords(lines, failing)
  {
    ParsedRecordsSnoc(lines, line, failing);
  }

  /** When nothing throws there is one record per non-blank line after the header line. */
  lemma {:induction false} EveryDataLineYieldsARecord(lines: seq<string>)
    ensures NonBlankCount(lines) == 0 ==> ParsedRecords(lines, {}) == []
    ensures NonBlankCount(lines) >= 1 ==> |ParsedRecords(lines, {})| == NonBlankCount(lines) - 1
  {
    KeptLinesCount(lines);
    assert |ParsedRecords(lines, {})| == |KeptLines(lines, {})|;
  }

  /** When nothing throws every non-blank line after the header line is kept. */
  lemma {:induction false} KeptLinesCount(lines: seq<string>)
    ensures NonBlankCount(lines) == 0 ==> KeptLines(lines, {}) == []
    ensures NonBlankCount(lines) >= 1 ==> |KeptLines(lines, {})| == NonBlankCount(lines) - 1
  {
    match FirstNonBlank(lines)
    case None =>
      NonBlankCountOfBlank(lines);
    case Some(h) =>
      NonBlankCountAroundHeader(lines, h);
      DataLinesCount(lines[h + 1..], h + 1);
  }

  /** A file with a header line and nothing else gives no records. */
  lemma {:induction false} HeaderOnlyGivesNoRecords(lines: seq<string>, failing: set<nat>)
    requires NonBlankCount(lines) <= 1
    ensures ParsedRecords(lines, failing) == []
  {
    HeaderOnlyKeepsNoLines(lines, failing);
  }

  /** A file with at most one non-blank line keeps no data line. */
  lemma {:induction false} HeaderOnlyKeepsNoLines(lines: seq<string>, failing: set<nat>)
    requires NonBlankCount(lines) <= 1
    ensures KeptLines(lines, failing) == []
  {
    match FirstNonBlank(lines)
    case None =>
    case Some(h) =>
      NonBlankCountAroundHeader(lines, h);
      DataLinesAtMost(lines[h + 1..], h + 1, failing);
  }

  /** Cutting the file after its header line keeps the header line. */
  lemma {:induction false} FrontKeepsHeader(lines: seq<string>, m: nat)
    requires FirstNonBlank(lines).Some? && FirstNonBlank(lines).value < m <= |lines|
    ensures FirstNonBlank(lines[..m]) == FirstNonBlank(lines)
  {
    var h := FirstNonBlank(lines).value;
    var front := lines[..m];
    forall k | 0 <= k < h ensures AllWhitespace(front[k]) {
      assert front[k] == lines[k];
    }
    assert front[h] == lines[h];
    FirstNonBlankAt(front, h);
  }

  /** The kept lines of a file, cut after its header line at index `m`. */
  lemma {:induction false} KeptLinesSplit(lines: seq<string>, failing: set<nat>, m: nat)
    requires FirstNonBlank(lines).Some? && FirstNonBlank(lines).value < m <= |lines|
    ensures KeptLines(lines, failing) == KeptLines(lines[..m], failing) + DataLines(lines[m..], m, failing)
  {
    var h := FirstNonBlank(lines).value;
    FrontKeepsHeader(lines, m);
    KeptLinesAt(lines, failing, h);
    KeptLinesAt(lines[..m], failing, h);
    DataLinesCut(lines, failing, h + 1, m);
  }

  lemma {:induction false} KeptLinesAt(lines: seq<string>, failing: set<nat>, h: nat)
    requires FirstNonBlank(lines) == Some(h)
    ensures h < |lines| && KeptLines(lines, failing) == DataLines(lines[h + 1..], h + 1, failing)
  {
  }

  /** The data lines from index `b` on, cut at index `m`. */
  lemma {:induction false} DataLinesCut(lines: seq<string>, failing: set<nat>, b: nat, m: nat)
    requires b <= m <= |lines|
    ensures DataLines(lines[b..], b, failing) == DataLines(lines[..m][b..], b, failing) + DataLines(lines[m..], m, failing)
  {
    var mid, tail := lines[b..m], lines[m..];
    assert lines[..m][b..] == mid;
    assert lines[b..] == mid + tail;
    DataLinesAppend(mid, tail, b, failing);
  }

  /** The kept lines around a data line `n` that does not throw. */
  lemma {:induction false} KeptLinesAroundKept(lines: seq<string>, failing: set<nat>, n: nat)
    requires FirstNonBlank(lines).Some? && FirstNonBlank(lines).value + 1 < n <= |lines|
    requires !AllWhitespace(lines[n - 1]) && n !in failing
    ensures KeptLines(lines, failing) ==
      KeptLines(lines[..n - 1], failing) + ([lines[n - 1]] + DataLines(lines[n..], n, failing))
  {
    var m := n - 1;
    KeptLinesSplit(lines, failing, m);
    var tail := lines[m..];
    assert tail[0] == lines[m] && tail[1..] == lines[n..];
    assert DataLines(tail, m, failing) == [lines[m]] + DataLines(lines[n..], n, failing);
  }

  /** The kept lines around a data line `n` that throws. */
  lemma {:induction false} KeptLinesAroundThrown(lines: seq<string>, failing: set<nat>, n: nat)
    requires FirstNonBlank(lines).Some? && FirstNonBlank(lines).value + 1 < n <= |lines|
    requires n !in failing
    ensures KeptLines(lines, failing + {n}) ==
      KeptLines(lines[..n - 1], failing) + DataLines(lines[n..], n, failing)
  {
    var m := n - 1;
    var h := FirstNonBlank(lines).value;
    var thrown := failing + {n};
    KeptLinesSplit(lines, thrown, m);
    FrontKeepsHeader(lines, m);
    KeptLinesAt(lines[..m], thrown, h);
    KeptLinesAt(lines[..m], failing, h);
    DataLinesOnlySeeTheirLines(lines[..m][h + 1..], h + 1, thrown, failing);
    var tail := lines[m..];
    assert tail[1..] == lines[n..];
    assert DataLines(tail, m, thrown) == DataLines(lines[n..], n, thrown);
    DataLinesOnlySeeTheirLines(lines[n..], n, thrown, failing);
  }

  /**
   * A line that throws loses its own record and no other: the records of the lines
   * before it and after it are kept, in order. (`before` is what the file cut
   * just before line `n` parses to; see ParsedRecordsOfFront.)
   */
  lemma {:induction false} FailingLineDropsOnlyItsRecord(lines: seq<string>, failing: set<nat>, n: nat)
    requires FirstNonBlank(lines).Some? && FirstNonBlank(lines).value + 1 < n <= |lines|
    requires !AllWhitespace(lines[n - 1]) && n !in failing
    ensures var before := RecordsOf(HeaderOf(lines), KeptLines(lines[..n - 1], failing));
            var after := RecordsOf(HeaderOf(lines), DataLines(lines[n..], n, failing));
            ParsedRecords(lines, failing) == before + [RowRecord(HeaderOf(lines), lines[n - 1])] + after &&
            ParsedRecords(lines, failing + {n}) == before + after
    ensures |ParsedRecords(lines, failing + {n})| == |ParsedRecords(lines, failing)| - 1
  {
    var hs := HeaderOf(lines);
    var front, rest := KeptLines(lines[..n - 1], failing), DataLines(lines[n..], n, failing);
    KeptLinesAroundKept(lines, failing, n);
    KeptLinesAroundThrown(lines, failing, n);
    RecordsOfAround(hs, front, lines[n - 1], rest);
  }

  /** The records of a list of lines with and without one line in the middle. */
  lemma {:induction false} RecordsOfAround(headers: seq<string>, before: seq<string>, x: string, after: seq<string>)
    ensures RecordsOf(headers, before + ([x] + after)) ==
      RecordsOf(headers, before) + [RowRecord(headers, x)] + RecordsOf(headers, after)
    ensures RecordsOf(headers, before + after) == RecordsOf(headers, before) + RecordsOf(headers, after)
  {
    RecordsOfAppend(headers, before, [x] + after);
    RecordsOfAppend(headers, [x], after);
    RecordsOfSingle(headers, x);
    RecordsOfAppend(headers, before, after);
  }

  /** The records of a file cut after its header line are built under the file's headers. */
  lemma {:induction false} ParsedRecordsOfFront(lines: seq<string>, failing: set<nat>, m: nat)
    requires FirstNonBlank(lines).Some? && FirstNonBlank(lines).value < m <= |lines|
    ensures ParsedRecords(lines[..m], failing) == RecordsOf(HeaderOf(lines), KeptLines(lines[..m], failing))
  {
    HeaderOfFront(lines, m);
  }

  /** Cutting the file after its header line keeps the headers. */
  lemma {:induction false} HeaderOfFront(lines: seq<string>, m: nat)
    requires FirstNonBlank(lines).Some? && FirstNonBlank(lines).value < m <= |lines|
    ensures HeaderOf(lines[..m]) == HeaderOf(lines)
  {
    FrontKeepsHeader(lines, m);
    var h := FirstNonBlank(lines).value;
    assert lines[..m][h] == lines[h];
  }

  // ---------------------------------------------------------------------------
  // Worked rows
  // ---------------------------------------------------------------------------

  lemma {:induction false} TwoKeyPath(header: string, a: string, b: string)
    requires '.' !in a && '.' !in b && header == a + "." + b
    ensures SplitOn(header, '.') == [a, b]
  {
    assert Join([a, b], '.') == header;
    SplitOnJoin([a, b], '.');
  }

  /** A line of plain fields, one per header, gives the record built from those fields. */
  lemma {:induction false} RowOfPlainFields(headers: seq<string>, ws: seq<string>, line: string)
    requires |ws| == |headers| >= 1
    requires forall k :: 0 <= k < |ws| ==> PlainField(ws[k])
    requires line == Join(ws, ',')
    ensures RowRecord(headers, line) == Build(headers, ws)
  {
    SplitLineOfPlainFields(ws);
  }

  /** Headers `n.f`, `n.l` and `a` build one nested object under `n` and a leaf under `a`. */
  lemma {:induction false} BuildNestedPair(headers: seq<string>, values: seq<string>, n: string, f: string, l: string, a: string)
    requires '.' !in n && '.' !in f && '.' !in l && '.' !in a && f != l && a != n
    requires headers == [n + "." + f, n + "." + l, a] && |values| == 3
    ensures Build(headers, values) ==
      map[n := Obj(map[f := LeafValue(f, values[0]), l := LeafValue(l, values[1])]), a := LeafValue(a, values[2])]
  {
    TwoKeyPath(headers[0], n, f);
    TwoKeyPath(headers[1], n, l);
    SplitOnFree(headers[2], '.');
    var m1 := map[n := Obj(map[f := LeafValue(f, values[0])])];
    var m2 := map[n := Obj(map[f := LeafValue(f, values[0]), l := LeafValue(l, values[1])])];
    assert headers[..2][..1] == headers[..1];
    assert headers[..3][..2] == headers[..2];
    assert headers[..1][..0] == [];
    assert Build(headers[..1], values) == Assign(map[], [n, f], values[0]) == m1;
    assert Build(headers[..2], values) == Assign(m1, [n, l], values[1]) == m2;
    assert headers[..3] == headers;
  }

  /** A record with a nested name passes the mandatory check exactly when both names are non-empty. */
  lemma {:induction false} NestedNameIsComplete(first: string, last: string, age: Val)
    ensures HasMandatoryFields(map["name" := Obj(map["firstName" := Str(first), "lastName" := Str(last)]), "age" := age])
            <==> first != "" && last != ""
  {
  }

  /** A decimal age under the key `age` is stored as that number. */
  lemma {:induction false} DecimalAge(age: nat)
    ensures LeafValue("age", ShowNat(age)) == Num(age)
  {
    AgeOfNumber(age, "");
    assert ShowInt(age) + "" == ShowNat(age);
  }

  /** An age with no digit in it is stored as 0; the record still has an age. */
  lemma {:induction false} NonNumericAge(headers: seq<string>, value: string)
    requires headers == ["age"]
    requires forall k :: 0 <= k < |value| ==> !IsDigit(value[k])
    ensures Build(headers, [value]) == map["age" := Num(0)]
  {
    SplitOnFree(headers[0], '.');
    assert headers[..0] == [];
    AgeOfNonNumeric(value);
  }

  /** Without a header for `age` no row passes the mandatory check (and every such row is still kept). */
  lemma {:induction false} MissingAge(headers: seq<string>, line: string)
    requires forall j :: 0 <= j < |headers| ==> TopKey(headers[j]) != "age"
    ensures !HasMandatoryFields(RowRecord(headers, line))
  {
    RowHasEveryHeader(headers, line);
  }
}
