/**
 * The "most active cookie" program: load the cookie log with its header stripped,
 * normalize its timestamps to dates, tally the rows that mention the date by the cookie
 * in column 0, and report every cookie with the highest tally.
 */
module MostActiveCookie {
  import opened CsvParser

  /** The column that holds the cookie name. */
  const CookieColumn: nat := 0

  /** A key of `m` whose count no other key exceeds. */
  predicate IsMaximal(m: map<string, nat>, k: string)
    requires k in m
  {
    forall k' :: k' in m ==> m[k'] <= m[k]
  }

  /** The keys of `m` whose count no other key exceeds. */
  function MaximalKeys(m: map<string, nat>): set<string> {
    set k | k in m && IsMaximal(m, k)
  }

  /**
   * The keys the program reports: every key whose count no other key exceeds. An empty
   * map has no maximum, and `max` of no values raises `ValueError`. At least one key is
   * reported, and all reported keys share one count.
   */
  function MostActive(m: map<string, nat>): (r: Result<set<string>>)
    ensures r.Err? <==> m == map[]
    ensures r.Err? ==> r.error == ValueError
    ensures r.Ok? ==> r.value != {} && r.value <= m.Keys
    ensures r.Ok? ==> forall k, k' :: k in r.value && k' in r.value ==> m[k] == m[k']
  {
    if m == map[] then Err(ValueError)
    else
      MaximalKeyExists(m);
      Ok(MaximalKeys(m))
  }

  /** Every non-empty map has a key of maximal count. */
  lemma {:induction false} MaximalKeyExists(m: map<string, nat>)
    requires m != map[]
    ensures MaximalKeys(m) != {}
    decreases |m|
  {
    var k :| k in m;
    var rest := m - {k};
    assert forall k' :: k' in m ==> k' == k || k' in rest;
    if rest != map[] {
      assert rest.Keys == m.Keys - {k};
      MaximalKeyExists(rest);
      var best :| best in MaximalKeys(rest);
      if m[k] <= rest[best] {
        assert best in MaximalKeys(m);
      } else {
        assert k in MaximalKeys(m);
      }
    } else {
      assert k in MaximalKeys(m);
    }
  }

  /**
   * `max(hashmap.values())`: the largest count, found by one pass over the keys; no count
   * exceeds it and some key has it. Over an empty map it raises `ValueError`.
   */
  method MaxCount(m: map<string, nat>) returns (r: Result<nat>)
    ensures r.Err? <==> m == map[]
    ensures r.Err? ==> r.error == ValueError
    ensures r.Ok? ==> (forall k :: k in m ==> m[k] <= r.value) && (exists k :: k in m && m[k] == r.value)
  {
    if m == map[] {
      return Err(ValueError);
    }
    var first :| first in m;
    var top := m[first];
    var todo := m.Keys - {first};
    while todo != {}
      invariant todo <= m.Keys
      invariant forall k :: k in m && k !in todo ==> m[k] <= top
      invariant exists k :: k in m && m[k] == top
      decreases |todo|
    {
      var k :| k in todo;
      if m[k] > top {
        top := m[k];
      }
      todo := todo - {k};
    }
    return Ok(top);
  }

  /**
   * Lines 53-54 of the program: the maximum count, then every key holding it. The result
   * is exactly the set of maximal keys: no tied key is dropped and no other key is included.
   */
  method SelectMostActive(m: map<string, nat>) returns (r: Result<set<string>>)
    ensures r == MostActive(m)
  {
    var mostActive := MaxCount(m);
    if mostActive.Err? {
      return Err(mostActive.error);
    }
    var top := mostActive.value;
    var res := set k | k in m && m[k] == top;
    assert forall k :: k in m ==> (m[k] == top <==> IsMaximal(m, k));
    assert res == MaximalKeys(m);
    return Ok(res);
  }

  /** What the program reports for a cookie log and a date, stage by stage. */
  function Report(src: Source, date: string): Result<set<string>> {
    match Load(src, true)
    case Err(e) => Err(e)
    case Ok(rows) =>
      match Tabulate(NormalizeTable(rows), date, CookieColumn)
      case Err(e) => Err(e)
      case Ok(hashmap) => MostActive(hashmap)
  }

  /**
   * The body of `main` after the command line is read: `parse` (the header is stripped),
   * `strip_time` on the fresh table, `tabulate_matches` on column 0, then the selection.
   */
  method Run(src: Source, date: string) returns (r: Result<set<string>>)
    ensures r == Report(src, date)
  {
    var parsed := Parse(src, true);
    if parsed.Err? {
      return Err(parsed.error);
    }
    var t := parsed.value;
    StripTime(t);
    var tally := TabulateMatches(t, date, CookieColumn);
    match tally
    case Err(e) =>
      return Err(e);
    case Ok(hashmap) =>
      r := SelectMostActive(hashmap);
  }

  /**
   * Every row the loader produces has a column 0, so the tally never raises `IndexError`:
   * the program fails only with `FileNotFoundError` (an unreadable or empty file) or with
   * `ValueError`, and the latter exactly when no normalized row mentions the date.
   */
  lemma ReportErrors(src: Source, date: string)
    ensures Report(src, date).Err? ==>
              Report(src, date).error == FileNotFoundError || Report(src, date).error == ValueError
    ensures Report(src, date).Err? && Report(src, date).error == FileNotFoundError <==> Load(src, true).Err?
    ensures Report(src, date) == Err(ValueError) <==>
              Load(src, true).Ok? &&
              forall j :: 0 <= j < |Load(src, true).value| ==> date !in NormalizeTable(Load(src, true).value)[j]
  {
    if Load(src, true).Ok? {
      var rows := NormalizeTable(Load(src, true).value);
      LoadedRowsNonEmpty(src, true);
      NormalizeTableFields(Load(src, true).value);
      TabulateSpec(rows, date, CookieColumn);
      assert !HasShortMatch(rows, date, CookieColumn);
      var m := Tabulate(rows, date, CookieColumn).value;
      if forall j :: 0 <= j < |rows| ==> date !in rows[j] {
        TabulateNoMatch(rows, date, CookieColumn, map[]);
      } else {
        var j :| 0 <= j < |rows| && date in rows[j];
        KeyCountPositive(rows, date, CookieColumn, j);
        assert rows[j][CookieColumn] in m;
      }
    }
  }

  /**
   * A log row holding a full timestamp on the requested date counts toward the cookie in
   * its column 0 (after normalization), so the program reports some cookie.
   */
  lemma TimestampOnDateCounts(src: Source, date: string, j: nat, i: nat)
    requires Load(src, true).Ok?
    requires j < |Load(src, true).value| && i < |Load(src, true).value[j]|
    requires MatchesTimestamp(Load(src, true).value[j][i]) && Load(src, true).value[j][i][..10] == date
    ensures var rows := NormalizeTable(Load(src, true).value);
            Tabulate(rows, date, CookieColumn).Ok? &&
            rows[j][CookieColumn] in Tabulate(rows, date, CookieColumn).value
    ensures Report(src, date).Ok?
  {
    var rows := NormalizeTable(Load(src, true).value);
    LoadedRowsNonEmpty(src, true);
    NormalizeTableFields(Load(src, true).value);
    assert rows[j][i] == date;
    ReportErrors(src, date);
    TabulateSpec(rows, date, CookieColumn);
    KeyCountPositive(rows, date, CookieColumn, j);
  }

  /** The table of the tabulation test: eight log rows over three dates. */
  const SampleRows: seq<Row> := [
    ["AtY0laUfhglK3lC7", "2018-12-09"],
    ["SAZuXPGUrfbcn5UA", "2018-12-09"],
    ["5UAVanZf6UtGyKVS", "2018-12-09"],
    ["AtY0laUfhglK3lC7", "2018-12-09"],
    ["SAZuXPGUrfbcn5UA", "2018-12-08"],
    ["4sMM2LxV07bPJzwf", "2018-12-08"],
    ["fbcn5UAVanZf6UtG", "2018-12-08"],
    ["4sMM2LxV07bPJzwf", "2018-12-07"]
  ]

  /** The tally the tabulation test expects. */
  const SampleTally: map<string, nat> :=
    map["AtY0laUfhglK3lC7" := 2, "SAZuXPGUrfbcn5UA" := 1, "5UAVanZf6UtGyKVS" := 1]

  /** The last four rows of the sample are from other dates and add nothing to the tally. */
  lemma SampleTailAddsNothing(acc: map<string, nat>)
    ensures TabulateFrom(SampleRows[4..], "2018-12-09", CookieColumn, acc) == Ok(acc)
  {
    var tail := SampleRows[4..];
    assert forall j :: 0 <= j < |tail| ==> "2018-12-09" !in tail[j];
    TabulateNoMatch(tail, "2018-12-09", CookieColumn, acc);
  }

  /** The first two rows of the sample each count once, for two different cookies. */
  lemma SampleHead()
    ensures Tabulate(SampleRows, "2018-12-09", CookieColumn) ==
            TabulateFrom(SampleRows[2..], "2018-12-09", CookieColumn, map["AtY0laUfhglK3lC7" := 1, "SAZuXPGUrfbcn5UA" := 1])
  {
    var date, key := "2018-12-09", CookieColumn;
    var rows := SampleRows;
    assert rows[1..][1..] == rows[2..];
    assert Tabulate(rows, date, key) == TabulateFrom(rows[1..], date, key, map["AtY0laUfhglK3lC7" := 1]);
  }

  /** The next two rows count a third cookie and the first one again. */
  lemma SampleMiddle()
    ensures TabulateFrom(SampleRows[2..], "2018-12-09", CookieColumn, map["AtY0laUfhglK3lC7" := 1, "SAZuXPGUrfbcn5UA" := 1]) ==
            TabulateFrom(SampleRows[4..], "2018-12-09", CookieColumn, SampleTally)
  {
    var date, key := "2018-12-09", CookieColumn;
    var a, b, c := "AtY0laUfhglK3lC7", "SAZuXPGUrfbcn5UA", "5UAVanZf6UtGyKVS";
    var rows := SampleRows;
    assert rows[2..][1..] == rows[3..] && rows[3..][1..] == rows[4..];
    assert TabulateFrom(rows[2..], date, key, map[a := 1, b := 1]) ==
           TabulateFrom(rows[3..], date, key, map[a := 1, b := 1, c := 1]);
    assert Bump(map[a := 1, b := 1, c := 1], a) == SampleTally;
  }

  /** Tabulating the sample for `2018-12-09` by column 0 gives exactly the expected tally. */
  lemma SampleTabulates()
    ensures Tabulate(SampleRows, "2018-12-09", CookieColumn) == Ok(SampleTally)
  {
    SampleHead();
    SampleMiddle();
    SampleTailAddsNothing(SampleTally);
  }

  /** The selection over the expected tally reports the one cookie seen twice. */
  lemma SampleMostActive()
    ensures MostActive(SampleTally) == Ok({"AtY0laUfhglK3lC7"})
  {
    var m := SampleTally;
    var a, b, c := "AtY0laUfhglK3lC7", "SAZuXPGUrfbcn5UA", "5UAVanZf6UtGyKVS";
    assert m[a] == 2 && m[b] == 1 && m[c] == 1;
    assert m[b] < m[a] && m[c] < m[a];
    assert !IsMaximal(m, "SAZuXPGUrfbcn5UA") && !IsMaximal(m, "5UAVanZf6UtGyKVS");
    assert IsMaximal(m, "AtY0laUfhglK3lC7");
    assert MaximalKeys(m) == {"AtY0laUfhglK3lC7"};
  }
}
