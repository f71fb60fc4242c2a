/**
 * The CSV loader, the timestamp normalizer and the match tabulator of `CSVParser`.
 *
 * `CSVParser` holds no state, so its operations are methods of this module. The Python
 * list of rows they take and return, which `strip_header` and `strip_time` change in
 * place, is a `Table` object whose `rows` field those methods reassign.
 */
module CsvParser {
  import opened PyStr

  /** One CSV record: its fields, in column order. */
  type Row = seq<string>

  /**
   * The file behind a file name: either it cannot be opened and read, or it is the
   * sequence of its raw lines, each with its line terminator, as iterating over the
   * open file yields them.
   */
  datatype Source = Unreadable | Readable(lines: seq<string>)

  /** The Python exceptions that can leave these operations. */
  datatype Error = FileNotFoundError | IndexError | ValueError

  datatype Result<T> = Ok(value: T) | Err(error: Error)

  /** The list of rows that `parse` builds and the other operations take. */
  class Table {
    var rows: seq<Row>

    constructor ()
      ensures rows == []
    {
      rows := [];
    }
  }

  // ---------------------------------------------------------------------------
  // Loader: parse and strip_header
  // ---------------------------------------------------------------------------

  /** The row one line of the file becomes: `info.strip().split(",")`. */
  function ParseLine(line: string): Row {
    Split(Strip(line), ',')
  }

  /** The table before any header is removed: one row per line, in line order. */
  function ParseLines(lines: seq<string>): seq<Row> {
    seq(|lines|, i requires 0 <= i < |lines| => ParseLine(lines[i]))
  }

  /**
   * What `parse(filename, header)` returns: the parsed lines, without the first one when
   * `header` is set. Every failure, an unreadable file as much as a header to strip from
   * an empty file, leaves as `FileNotFoundError`.
   */
  function Load(src: Source, header: bool): Result<seq<Row>> {
    match src
    case Unreadable => Err(FileNotFoundError)
    case Readable(lines) =>
      var all := ParseLines(lines);
      if !header then Ok(all)
      else if all == [] then Err(FileNotFoundError)
      else Ok(all[1..])
  }

  /**
   * `strip_header(res)`: `del res[0]`. On an empty list the deletion fails with
   * `IndexError` and the list stays empty.
   */
  method StripHeader(t: Table) returns (r: Result<()>)
    modifies t
    ensures old(t.rows) == [] ==> r == Err(IndexError) && t.rows == []
    ensures old(t.rows) != [] ==> r == Ok(()) && t.rows == old(t.rows)[1..]
  {
    if t.rows == [] {
      return Err(IndexError);
    }
    t.rows := t.rows[1..];
    return Ok(());
  }

  /** `parse(filename, header)`: builds a fresh table line by line, then strips the header. */
  method Parse(src: Source, header: bool) returns (r: Result<Table>)
    ensures r.Err? <==> Load(src, header).Err?
    ensures r.Err? ==> r.error == FileNotFoundError
    ensures r.Ok? ==> fresh(r.value) && r.value.rows == Load(src, header).value
  {
    if src.Unreadable? {
      return Err(FileNotFoundError);
    }
    var lines := src.lines;
    ghost var all := ParseLines(lines);
    var res := new Table();
    var i := 0;
    while i < |lines|
      invariant 0 <= i <= |lines|
      invariant res.rows == all[..i]
    {
      assert all[..i + 1] == all[..i] + [all[i]];
      res.rows := res.rows + [ParseLine(lines[i])];
      i := i + 1;
    }
    assert all[..|lines|] == all;
    if header {
      var stripped := StripHeader(res);
      if stripped.Err? {
        return Err(FileNotFoundError);
      }
    }
    return Ok(res);
  }

  /**
   * Each row of the loaded table is the split of its stripped line: joining its fields
   * with commas gives back the stripped line, it has one field more than the line has
   * commas, so never none, and no field holds a comma.
   */
  lemma ParsedRowShape(line: string)
    ensures Join(ParseLine(line), ',') == Strip(line)
    ensures |ParseLine(line)| == CountChar(Strip(line), ',') + 1
    ensures forall i :: 0 <= i < |ParseLine(line)| ==> ',' !in ParseLine(line)[i]
  {
    JoinSplit(Strip(line), ',');
    SplitCount(Strip(line), ',');
  }

  /**
   * Reading back a row written as one CSV line gives the row: its fields are joined with
   * commas and the line is terminated, provided no field holds a comma and the line
   * neither starts nor ends with whitespace.
   */
  lemma ParseWrittenRow(row: Row)
    requires |row| >= 1 && forall i :: 0 <= i < |row| ==> ',' !in row[i]
    requires var text := Join(row, ','); text != [] && !IsSpace(text[0]) && !IsSpace(text[|text| - 1])
    ensures ParseLine(Join(row, ',') + "\n") == row
  {
    StripTerminated(Join(row, ','));
    SplitJoin(row, ',');
  }

  /** Without header stripping, a readable file loads to one row per line, in line order. */
  lemma LoadWithoutHeader(lines: seq<string>)
    ensures Load(Readable(lines), false).Ok?
    ensures |Load(Readable(lines), false).value| == |lines|
    ensures forall i :: 0 <= i < |lines| ==> Load(Readable(lines), false).value[i] == ParseLine(lines[i])
  {
  }

  /**
   * With header stripping, a readable file loads exactly when it has a line, and then to
   * one row for each line from the second on, in line order.
   */
  lemma LoadWithHeader(lines: seq<string>)
    ensures Load(Readable(lines), true).Ok? <==> |lines| >= 1
    ensures |lines| >= 1 ==>
              var rows := Load(Readable(lines), true).value;
              |rows| == |lines| - 1 && forall i :: 0 <= i < |rows| ==> rows[i] == ParseLine(lines[i + 1])
  {
    var all := ParseLines(lines);
    assert |all| == |lines|;
    if all != [] {
      assert forall i :: 0 <= i < |all| - 1 ==> all[1..][i] == all[i + 1];
    }
  }

  /** `parse` lets no error other than `FileNotFoundError` escape, and an unreadable file always raises it. */
  lemma LoadErrors(src: Source, header: bool)
    ensures Load(src, header).Err? ==> Load(src, header).error == FileNotFoundError
    ensures src.Unreadable? ==> Load(src, header) == Err(FileNotFoundError)
  {
  }

  /** No row of a loaded table is empty. */
  lemma {:induction false} LoadedRowsNonEmpty(src: Source, header: bool)
    requires Load(src, header).Ok?
    ensures forall j :: 0 <= j < |Load(src, header).value| ==> |Load(src, header).value[j]| >= 1
  {
  }

  // ---------------------------------------------------------------------------
  // Normalizer: strip_time
  // ---------------------------------------------------------------------------

  predicate IsDigit(c: char) {
    '0' <= c <= '9'
  }

  /**
   * `s` is exactly `dddd-dd-ddTdd:dd:dd+dd:dd` with every `d` an ASCII digit: the pattern
   * `(\d{4}-\d{2}-\d{2})T(\d{2}:\d{2}:\d{2}\+\d{2}:\d{2})` spelled out position by position.
   */
  predicate IsDateTime(s: string) {
    && |s| == 25
    && IsDigit(s[0]) && IsDigit(s[1]) && IsDigit(s[2]) && IsDigit(s[3]) && s[4] == '-'
    && IsDigit(s[5]) && IsDigit(s[6]) && s[7] == '-'
    && IsDigit(s[8]) && IsDigit(s[9])
    && s[10] == 'T'
    && IsDigit(s[11]) && IsDigit(s[12]) && s[13] == ':'
    && IsDigit(s[14]) && IsDigit(s[15]) && s[16] == ':'
    && IsDigit(s[17]) && IsDigit(s[18])
    && s[19] == '+'
    && IsDigit(s[20]) && IsDigit(s[21]) && s[22] == ':'
    && IsDigit(s[23]) && IsDigit(s[24])
  }

  /**
   * `re.match(timedate_pattern, s)` succeeds: the pattern is anchored at the start, and its
   * `$` matches at the very end or just before a newline that ends the string.
   */
  predicate MatchesTimestamp(s: string) {
    IsDateTime(s) || (|s| == 26 && s[25] == '\n' && IsDateTime(s[..25]))
  }

  /** On a matching field, `s.split("T", 1)[0]` is its first ten characters, the date. */
  lemma DatePart(s: string)
    requires MatchesTimestamp(s)
    ensures Before(s, 'T') == s[..10]
  {
    var d := if IsDateTime(s) then s else s[..25];
    assert IsDateTime(d) && d[..25] == s[..25];
    assert forall i :: 0 <= i < 10 ==> s[..10][i] != 'T' by {
      forall i | 0 <= i < 10 ensures s[..10][i] != 'T' {
        assert s[i] == d[i];
      }
    }
    BeforeFirst(s, 'T', 10);
  }

  /**
   * What `strip_time` leaves in one field: the date part of a matching field, every other
   * field as it was. The result never matches, so a second pass changes nothing.
   */
  function NormalizeField(s: string): (r: string)
    ensures MatchesTimestamp(s) ==> r == s[..10]
    ensures !MatchesTimestamp(s) ==> r == s
    ensures !MatchesTimestamp(r)
  {
    if MatchesTimestamp(s) then DatePart(s); Before(s, 'T') else s
  }

  function NormalizeRow(row: Row): Row {
    seq(|row|, i requires 0 <= i < |row| => NormalizeField(row[i]))
  }

  /** The table `strip_time` leaves behind: every field of every row normalized. */
  function NormalizeTable(rows: seq<Row>): seq<Row> {
    seq(|rows|, j requires 0 <= j < |rows| => NormalizeRow(rows[j]))
  }

  /**
   * `strip_time(res)`: visits every field of every row and overwrites each field that
   * matches the timestamp pattern with the part before its `T`.
   */
  method StripTime(t: Table)
    modifies t
    ensures t.rows == NormalizeTable(old(t.rows))
  {
    ghost var orig := t.rows;
    var j := 0;
    while j < |t.rows|
      invariant 0 <= j <= |t.rows| == |orig|
      invariant forall k :: 0 <= k < j ==> t.rows[k] == NormalizeRow(orig[k])
      invariant forall k :: j <= k < |t.rows| ==> t.rows[k] == orig[k]
    {
      var i := 0;
      while i < |t.rows[j]|
        invariant |t.rows| == |orig| && |t.rows[j]| == |orig[j]|
        invariant 0 <= i <= |t.rows[j]|
        invariant forall n :: 0 <= n < i ==> t.rows[j][n] == NormalizeField(orig[j][n])
        invariant forall n :: i <= n < |t.rows[j]| ==> t.rows[j][n] == orig[j][n]
        invariant forall k :: 0 <= k < j ==> t.rows[k] == NormalizeRow(orig[k])
        invariant forall k :: j < k < |t.rows| ==> t.rows[k] == orig[k]
      {
        var s := t.rows[j][i];
        if MatchesTimestamp(s) {
          t.rows := t.rows[j := t.rows[j][i := Before(s, 'T')]];
        }
        i := i + 1;
      }
      assert t.rows[j] == NormalizeRow(orig[j]);
      j := j + 1;
    }
  }

  /**
   * `strip_time` keeps every row and every row's length and rewrites each field to its
   * first ten characters exactly when the field matches the timestamp pattern.
   */
  lemma NormalizeTableFields(rows: seq<Row>)
    ensures |NormalizeTable(rows)| == |rows|
    ensures forall j :: 0 <= j < |rows| ==> |NormalizeTable(rows)[j]| == |rows[j]|
    ensures forall j, i :: 0 <= j < |rows| && 0 <= i < |rows[j]| ==>
              NormalizeTable(rows)[j][i] == if MatchesTimestamp(rows[j][i]) then rows[j][i][..10] else rows[j][i]
  {
  }

  /** After `strip_time` no field matches the timestamp pattern any more. */
  lemma NormalizeTableComplete(rows: seq<Row>)
    ensures forall j, i :: 0 <= j < |rows| && 0 <= i < |rows[j]| ==> !MatchesTimestamp(NormalizeTable(rows)[j][i])
  {
  }

  /** `strip_time` is idempotent. */
  lemma NormalizeTableIdempotent(rows: seq<Row>)
    ensures NormalizeTable(NormalizeTable(rows)) == NormalizeTable(rows)
  {
    var once := NormalizeTable(rows);
    forall j | 0 <= j < |rows|
      ensures NormalizeRow(once[j]) == once[j]
    {
      assert forall i :: 0 <= i < |once[j]| ==> NormalizeField(once[j][i]) == once[j][i];
    }
  }

  /** A one-row table of an identifier and a timestamp normalizes to the identifier and the date. */
  lemma NormalizeEntry(id: string, stamp: string)
    requires !MatchesTimestamp(id) && MatchesTimestamp(stamp)
    ensures NormalizeTable([[id, stamp]]) == [[id, stamp[..10]]]
  {
    assert NormalizeRow([id, stamp]) == [id, stamp[..10]];
  }

  /** The normalization test: a cookie row with a full timestamp keeps only the date. */
  lemma StripTimeExample()
    ensures NormalizeTable([["eb1432fa21", "2020-11-11T30:30:30+30:30"]]) == [["eb1432fa21", "2020-11-11"]]
  {
    var stamp := "2020-11-11T30:30:30+30:30";
    assert IsDateTime(stamp);
    assert stamp[..10] == "2020-11-11";
    NormalizeEntry("eb1432fa21", stamp);
  }

  // ---------------------------------------------------------------------------
  // Aggregator: tabulate_matches
  // ---------------------------------------------------------------------------

  /** `hashmap[k] = hashmap.get(k, 0) + 1`: `k` counts once more, every other key is left alone. */
  function Bump(m: map<string, nat>, k: string): (r: map<string, nat>)
    ensures k in r && r[k] == (if k in m then m[k] else 0) + 1
    ensures forall k' :: k' != k ==> (k' in r <==> k' in m)
    ensures forall k' :: k' != k && k' in m ==> r[k'] == m[k']
  {
    m[k := (if k in m then m[k] else 0) + 1]
  }

  /**
   * The map `tabulate_matches` holds after adding the rows `rows` to `acc`, scanning them
   * in order; the first row that contains `target` but has no column `keyIndex` raises
   * `IndexError`. Rows without `target` are never indexed.
   */
  function TabulateFrom(rows: seq<Row>, target: string, keyIndex: nat, acc: map<string, nat>): Result<map<string, nat>>
    decreases |rows|
  {
    if rows == [] then Ok(acc)
    else if target in rows[0] then
      if keyIndex < |rows[0]| then TabulateFrom(rows[1..], target, keyIndex, Bump(acc, rows[0][keyIndex]))
      else Err(IndexError)
    else TabulateFrom(rows[1..], target, keyIndex, acc)
  }

  /** What `tabulate_matches(res, target, key_index)` returns, starting from the empty dict. */
  function Tabulate(rows: seq<Row>, target: string, keyIndex: nat): Result<map<string, nat>> {
    TabulateFrom(rows, target, keyIndex, map[])
  }

  /** `tabulate_matches(res, target, key_index)`: one pass over the table, which it does not change. */
  method TabulateMatches(t: Table, target: string, keyIndex: nat) returns (r: Result<map<string, nat>>)
    ensures r == Tabulate(t.rows, target, keyIndex)
    ensures r.Err? <==> HasShortMatch(t.rows, target, keyIndex)
  {
    TabulateErrors(t.rows, target, keyIndex, map[]);
    var hashmap: map<string, nat> := map[];
    var j := 0;
    while j < |t.rows|
      invariant 0 <= j <= |t.rows|
      invariant TabulateFrom(t.rows[j..], target, keyIndex, hashmap) == Tabulate(t.rows, target, keyIndex)
    {
      var entry := t.rows[j];
      assert t.rows[j..][1..] == t.rows[j + 1..];
      if target in entry {
        if keyIndex >= |entry| {
          return Err(IndexError);
        }
        var key := entry[keyIndex];
        hashmap := hashmap[key := (if key in hashmap then hashmap[key] else 0) + 1];
      }
      j := j + 1;
    }
    return Ok(hashmap);
  }

  // The independent description of the tally that the lemmas below prove `Tabulate` meets.

  /** Some row contains `target` but has no column `keyIndex`. */
  predicate HasShortMatch(rows: seq<Row>, target: string, keyIndex: nat) {
    exists j :: 0 <= j < |rows| && target in rows[j] && |rows[j]| <= keyIndex
  }

  /** Whether `row` counts toward key `k`: it contains `target` and holds `k` in column `keyIndex`. */
  predicate CountsToward(row: Row, target: string, keyIndex: nat, k: string) {
    target in row && keyIndex < |row| && row[keyIndex] == k
  }

  /** The number of rows that count toward key `k`. */
  function KeyCount(rows: seq<Row>, target: string, keyIndex: nat, k: string): nat {
    if rows == [] then 0
    else (if CountsToward(rows[0], target, keyIndex, k) then 1 else 0) + KeyCount(rows[1..], target, keyIndex, k)
  }

  /** The number of rows that contain `target`. */
  function MatchCount(rows: seq<Row>, target: string): nat {
    if rows == [] then 0 else (if target in rows[0] then 1 else 0) + MatchCount(rows[1..], target)
  }

  /** The sum of the counts of a map. */
  ghost function SumValues(m: map<string, nat>): nat
    decreases |m|
  {
    if m == map[] then 0
    else
      var k :| k in m;
      m[k] + SumValues(m - {k})
  }

  /** The sum does not depend on which key is taken out first. */
  lemma {:induction false} SumValuesRemove(m: map<string, nat>, k: string)
    requires k in m
    ensures SumValues(m) == m[k] + SumValues(m - {k})
    decreases |m|
  {
    var k' :| k' in m && SumValues(m) == m[k'] + SumValues(m - {k'});
    if k' != k {
      assert (m - {k'}).Keys == m.Keys - {k'};
      assert (m - {k}).Keys == m.Keys - {k};
      SumValuesRemove(m - {k'}, k);
      SumValuesRemove(m - {k}, k');
      assert m - {k'} - {k} == m - {k} - {k'};
    }
  }

  /** One more count adds one to the sum. */
  lemma SumValuesBump(m: map<string, nat>, k: string)
    ensures SumValues(Bump(m, k)) == SumValues(m) + 1
  {
    var b := Bump(m, k);
    SumValuesRemove(b, k);
    if k in m {
      SumValuesRemove(m, k);
      assert b - {k} == m - {k};
    } else {
      assert b - {k} == m;
    }
  }

  /** `tabulate_matches` fails, always with `IndexError`, exactly when some matching row is too short. */
  lemma {:induction false} TabulateErrors(rows: seq<Row>, target: string, keyIndex: nat, acc: map<string, nat>)
    ensures TabulateFrom(rows, target, keyIndex, acc).Err? <==> HasShortMatch(rows, target, keyIndex)
    ensures TabulateFrom(rows, target, keyIndex, acc).Err? ==> TabulateFrom(rows, target, keyIndex, acc).error == IndexError
    decreases |rows|
  {
    if rows != [] {
      var next := if target in rows[0] && keyIndex < |rows[0]| then Bump(acc, rows[0][keyIndex]) else acc;
      TabulateErrors(rows[1..], target, keyIndex, next);
      if HasShortMatch(rows[1..], target, keyIndex) {
        var j :| 0 <= j < |rows[1..]| && target in rows[1..][j] && |rows[1..][j]| <= keyIndex;
        assert rows[j + 1] == rows[1..][j];
      }
      if HasShortMatch(rows, target, keyIndex) && !(target in rows[0] && |rows[0]| <= keyIndex) {
        var j :| 0 <= j < |rows| && target in rows[j] && |rows[j]| <= keyIndex;
        assert j > 0 && rows[1..][j - 1] == rows[j];
      }
    }
  }

  /** On success every key's final count is its count in `acc` plus the number of rows counting toward it. */
  lemma {:induction false} TabulateCounts(rows: seq<Row>, target: string, keyIndex: nat, acc: map<string, nat>)
    requires TabulateFrom(rows, target, keyIndex, acc).Ok?
    ensures var m := TabulateFrom(rows, target, keyIndex, acc).value;
            forall k :: (k in m <==> k in acc || KeyCount(rows, target, keyIndex, k) > 0) &&
                        (if k in m then m[k] else 0) == (if k in acc then acc[k] else 0) + KeyCount(rows, target, keyIndex, k)
    ensures SumValues(TabulateFrom(rows, target, keyIndex, acc).value) == SumValues(acc) + MatchCount(rows, target)
    decreases |rows|
  {
    if rows != [] {
      if target in rows[0] {
        SumValuesBump(acc, rows[0][keyIndex]);
        TabulateCounts(rows[1..], target, keyIndex, Bump(acc, rows[0][keyIndex]));
      } else {
        TabulateCounts(rows[1..], target, keyIndex, acc);
      }
    }
  }

  /** A key counted at least once comes from a row that contains `target`. */
  lemma {:induction false} KeyCountWitness(rows: seq<Row>, target: string, keyIndex: nat, k: string)
    requires KeyCount(rows, target, keyIndex, k) > 0
    ensures exists j :: 0 <= j < |rows| && CountsToward(rows[j], target, keyIndex, k)
  {
    if !CountsToward(rows[0], target, keyIndex, k) {
      KeyCountWitness(rows[1..], target, keyIndex, k);
      var j :| 0 <= j < |rows[1..]| && CountsToward(rows[1..][j], target, keyIndex, k);
      assert rows[j + 1] == rows[1..][j];
    }
  }

  /** A row that contains `target` and has column `keyIndex` counts toward the key it holds there. */
  lemma {:induction false} KeyCountPositive(rows: seq<Row>, target: string, keyIndex: nat, j: nat)
    requires j < |rows| && target in rows[j] && keyIndex < |rows[j]|
    ensures KeyCount(rows, target, keyIndex, rows[j][keyIndex]) >= 1
  {
    if j > 0 {
      assert rows[1..][j - 1] == rows[j];
      KeyCountPositive(rows[1..], target, keyIndex, j - 1);
    }
  }

  /**
   * `tabulate_matches` counts exactly: it raises `IndexError` iff some row containing
   * `target` is too short; otherwise a key is in the map iff some row containing `target`
   * holds it in column `keyIndex`, its count is the number of such rows (so at least 1),
   * and the counts add up to the number of rows containing `target`.
   */
  lemma TabulateSpec(rows: seq<Row>, target: string, keyIndex: nat)
    ensures Tabulate(rows, target, keyIndex).Err? <==> HasShortMatch(rows, target, keyIndex)
    ensures Tabulate(rows, target, keyIndex).Err? ==> Tabulate(rows, target, keyIndex).error == IndexError
    ensures Tabulate(rows, target, keyIndex).Ok? ==>
              var m := Tabulate(rows, target, keyIndex).value;
              && (forall k :: k in m <==> KeyCount(rows, target, keyIndex, k) > 0)
              && (forall k :: k in m ==> m[k] == KeyCount(rows, target, keyIndex, k) && m[k] >= 1)
              && (forall k :: k in m ==> exists j :: 0 <= j < |rows| && CountsToward(rows[j], target, keyIndex, k))
              && SumValues(m) == MatchCount(rows, target)
  {
    TabulateErrors(rows, target, keyIndex, map[]);
    if Tabulate(rows, target, keyIndex).Ok? {
      TabulateCounts(rows, target, keyIndex, map[]);
      assert SumValues(map[]) == 0;
      var m := Tabulate(rows, target, keyIndex).value;
      forall k | k in m
        ensures exists j :: 0 <= j < |rows| && CountsToward(rows[j], target, keyIndex, k)
      {
        KeyCountWitness(rows, target, keyIndex, k);
      }
    }
  }

  /** A target that no row contains gives the empty map, not an error. */
  lemma {:induction false} TabulateNoMatch(rows: seq<Row>, target: string, keyIndex: nat, acc: map<string, nat>)
    requires forall j :: 0 <= j < |rows| ==> target !in rows[j]
    ensures TabulateFrom(rows, target, keyIndex, acc) == Ok(acc)
    decreases |rows|
  {
    if rows != [] {
      assert forall j :: 0 <= j < |rows[1..]| ==> rows[1..][j] == rows[j + 1];
      TabulateNoMatch(rows[1..], target, keyIndex, acc);
    }
  }

  // ---------------------------------------------------------------------------
  // What a caller of the in-place operations can conclude, on the unit tests' inputs
  // ---------------------------------------------------------------------------

  method StripHeaderClient() {
    var t := new Table();
    t.rows := [["name", "ipaddress"], ["eb1432fa21", "192.0.0.0"]];
    var r := StripHeader(t);
    assert r == Ok(()) && t.rows == [["eb1432fa21", "192.0.0.0"]];
    var empty := new Table();
    r := StripHeader(empty);
    assert r == Err(IndexError) && empty.rows == [];
  }

  method TabulateClient() {
    var t := new Table();
    t.rows := [["dog"]];
    var r := TabulateMatches(t, "dog", 999);
    assert t.rows[0] == ["dog"];
    assert r == Err(IndexError);
    r := TabulateMatches(t, "cat", 999);
    assert r == Ok(map[]);
  }
}
