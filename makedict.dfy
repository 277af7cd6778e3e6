/** The cross-language table merger of dataParser/makedict.py: for one table,
    every record of the primary language becomes one merged entry holding the
    configured columns of that record and of its counterpart (same merge key)
    in each other language. Reading the table files and writing the merged
    JSON are outside the model; the per-language record lists are the
    parameter `data`. */
module MakeDict {
  import opened Seqs

  /** One exported record: field name to value. */
  type Record = map<string, string>

  /** One merged entry: language name to the extracted columns. */
  type Entry = map<string, Record>

  /** The exceptions the script can raise on its data. */
  datatype Error = KeyError(key: string) | IndexError

  datatype Result<T> = Ok(value: T) | Err(error: Error)

  /** The "ERROR" line printed when a language has no counterpart record. */
  datatype Report = MissingTranslation(row: nat, language: string)

  /** The entry built for one primary record, with the languages it lacks. */
  datatype Row = Row(entry: Entry, missing: seq<string>)

  /** The merged table and its reports, in order. */
  datatype Merged = Merged(entries: seq<Entry>, reports: seq<Report>)

  /** The language list of the script; the first one is the primary language. */
  const Languages: seq<string> := ["English", "Japanese"]

  /** The script's languages meet the content lemmas' requirement. */
  lemma LanguagesDistinct()
    ensures |Languages| > 0 && Distinct(Languages)
  {
  }

  // ---------------------------------------------------------------------
  // extract

  /** The record restricted to `columns`; a missing column raises KeyError
      for the first such column. */
  function Extract(d: Record, columns: seq<string>): (r: Result<Record>)
    ensures r.Ok? <==> forall k :: k in columns ==> k in d
    ensures r.Ok? ==> r.value.Keys == (set k | k in columns) && forall k :: k in r.value ==> r.value[k] == d[k]
    ensures r.Err? ==>
              exists i :: 0 <= i < |columns| && r.error == KeyError(columns[i]) &&
                          columns[i] !in d && forall j :: 0 <= j < i ==> columns[j] in d
  {
    match FirstIndex(columns, (k: string) => k !in d)
    case Some(i) => Err(KeyError(columns[i]))
    case None => Ok(map k | k in columns :: d[k])
  }

  // ---------------------------------------------------------------------
  // find

  /** Record `i` of `list` is the first whose field `key` equals `value`. */
  ghost predicate FirstKeyMatch(list: seq<Record>, key: string, value: string, i: int)
  {
    0 <= i < |list| && key in list[i] && list[i][key] == value &&
    forall j :: 0 <= j < i ==> key in list[j] && list[j][key] != value
  }

  /** The scan stops at a record that lacks the key (KeyError) or matches. */
  predicate Stops(key: string, value: string, item: Record)
  {
    key !in item || item[key] == value
  }

  /** The first record whose `key` field equals `value`, None when there is
      none, KeyError when a record before any match lacks the field. */
  function FindResult(list: seq<Record>, key: string, value: string): (r: Result<Option<Record>>)
    ensures r.Err? ==> r.error == KeyError(key)
    ensures r.Err? ==>
              exists i :: 0 <= i < |list| && key !in list[i] &&
                          forall j :: 0 <= j < i ==> key in list[j] && list[j][key] != value
    ensures r == Ok(None) <==> forall i :: 0 <= i < |list| ==> key in list[i] && list[i][key] != value
    ensures forall i :: FirstKeyMatch(list, key, value, i) ==> r == Ok(Some(list[i]))
    ensures r.Ok? && r.value.Some? ==> exists i :: FirstKeyMatch(list, key, value, i) && r.value.value == list[i]
  {
    match FirstIndex(list, (item: Record) => Stops(key, value, item))
    case None => Ok(None)
    case Some(i) => if key in list[i] then Ok(Some(list[i])) else Err(KeyError(key))
  }

  method Find(list: seq<Record>, key: string, value: string) returns (r: Result<Option<Record>>)
    ensures r == FindResult(list, key, value)
  {
    for i := 0 to |list|
      invariant forall j :: 0 <= j < i ==> !Stops(key, value, list[j])
    {
      var item := list[i];
      if key !in item {
        return Err(KeyError(key));
      }
      if item[key] == value {
        return Ok(Some(item));
      }
    }
    return Ok(None);
  }

  // ---------------------------------------------------------------------
  // The merge loop of main

  /** The key field of a table: "Id" when the first primary record has one,
      else "Text"; IndexError when the primary list is empty. */
  function KeyField(primary: seq<Record>): (r: Result<string>)
    ensures r.Ok? <==> |primary| > 0
    ensures r.Err? ==> r.error == IndexError
    ensures r.Ok? ==> (r.value == "Id" <==> "Id" in primary[0]) && (r.value == "Id" || r.value == "Text")
  {
    if |primary| == 0 then Err(IndexError)
    else if "Id" in primary[0] then Ok("Id")
    else Ok("Text")
  }

  /** The columns of `item`'s counterpart among `records`: None when there is
      none. */
  function Counterpart(records: seq<Record>, keyField: string, item: Record, columns: seq<string>): (r: Result<Option<Record>>)
    ensures r.Ok? ==> keyField in item
    ensures r.Ok? ==> (r.value.Some? <==> exists j :: 0 <= j < |records| && keyField in records[j] && records[j][keyField] == item[keyField])
    ensures r.Ok? && r.value.Some? ==>
      exists j :: FirstKeyMatch(records, keyField, item[keyField], j) && Extract(records[j], columns) == Ok(r.value.value)
  {
    if keyField !in item then Err(KeyError(keyField))
    else match FindResult(records, keyField, item[keyField])
      case Err(e) => Err(e)
      case Ok(None) => Ok(None)
      case Ok(Some(found)) =>
        match Extract(found, columns)
        case Err(e) => Err(e)
        case Ok(x) => Ok(Some(x))
  }

  /** The inner loop over the secondary languages `langs`, from `row` on. */
  function FillEntry(data: map<string, seq<Record>>, langs: seq<string>, keyField: string, item: Record,
                     columns: seq<string>, row: Row): Result<Row>
    requires forall l :: l in langs ==> l in data
    decreases |langs|
  {
    if langs == [] then Ok(row)
    else match Counterpart(data[langs[0]], keyField, item, columns)
      case Err(e) => Err(e)
      case Ok(None) => FillEntry(data, langs[1..], keyField, item, columns, Row(row.entry, row.missing + [langs[0]]))
      case Ok(Some(x)) => FillEntry(data, langs[1..], keyField, item, columns, Row(row.entry[langs[0] := x], row.missing))
  }

  /** The merged entry for one primary record. */
  function BuildEntry(data: map<string, seq<Record>>, languages: seq<string>, keyField: string, item: Record,
                      columns: seq<string>): Result<Row>
    requires |languages| > 0 && forall l :: l in languages ==> l in data
  {
    match Extract(item, columns)
    case Err(e) => Err(e)
    case Ok(p) => FillEntry(data, languages[1..], keyField, item, columns, Row(map[languages[0] := p], []))
  }

  function Reports(row: nat, langs: seq<string>): seq<Report>
  {
    seq(|langs|, k requires 0 <= k < |langs| => MissingTranslation(row, langs[k]))
  }

  /** The entries and reports for the primary records `rows`, in order; the
      first error raised stops the loop. */
  function MergeRows(data: map<string, seq<Record>>, languages: seq<string>, keyField: string,
                     rows: seq<Record>, columns: seq<string>): Result<Merged>
    requires |languages| > 0 && forall l :: l in languages ==> l in data
    decreases |rows|
  {
    if rows == [] then Ok(Merged([], []))
    else match MergeRows(data, languages, keyField, rows[..|rows| - 1], columns)
      case Err(e) => Err(e)
      case Ok(m) =>
        match BuildEntry(data, languages, keyField, rows[|rows| - 1], columns)
        case Err(e) => Err(e)
        case Ok(row) => Ok(Merged(m.entries + [row.entry], m.reports + Reports(|rows| - 1, row.missing)))
  }

  /** The merged table for the per-language record lists `data`. */
  function Merge(data: map<string, seq<Record>>, languages: seq<string>, columns: seq<string>): Result<Merged>
    requires |languages| > 0 && forall l :: l in languages ==> l in data
  {
    match KeyField(data[languages[0]])
    case Err(e) => Err(e)
    case Ok(keyField) => MergeRows(data, languages, keyField, data[languages[0]], columns)
  }

  /** One pass of the outer loop body: the entry for one primary record. */
  method MergeItem(data: map<string, seq<Record>>, languages: seq<string>, keyField: string, item: Record,
                   columns: seq<string>) returns (r: Result<Row>)
    requires |languages| > 0 && forall l :: l in languages ==> l in data
    ensures r == BuildEntry(data, languages, keyField, item, columns)
  {
    var primary := Extract(item, columns);
    if primary.Err? {
      return Err(primary.error);
    }
    var entry := map[languages[0] := primary.value];
    var missing: seq<string> := [];
    for j := 1 to |languages|
      invariant FillEntry(data, languages[j..], keyField, item, columns, Row(entry, missing))
        == BuildEntry(data, languages, keyField, item, columns)
    {
      var lang := languages[j];
      assert languages[j..][0] == lang && languages[j..][1..] == languages[j + 1..];
      if keyField !in item {
        return Err(KeyError(keyField));
      }
      var found := Find(data[lang], keyField, item[keyField]);
      if found.Err? {
        return Err(found.error);
      }
      if found.value.Some? {
        var x := Extract(found.value.value, columns);
        if x.Err? {
          return Err(x.error);
        }
        entry := entry[lang := x.value];
      } else {
        missing := missing + [lang];
      }
    }
    return Ok(Row(entry, missing));
  }

  /** Once a prefix of the rows raises, the whole merge raises the same. */
  lemma {:induction false} MergeAborts(data: map<string, seq<Record>>, languages: seq<string>, keyField: string,
                                       rows: seq<Record>, columns: seq<string>, n: nat)
    requires |languages| > 0 && forall l :: l in languages ==> l in data
    requires n <= |rows| && MergeRows(data, languages, keyField, rows[..n], columns).Err?
    ensures MergeRows(data, languages, keyField, rows, columns) == MergeRows(data, languages, keyField, rows[..n], columns)
    decreases |rows|
  {
    if n < |rows| {
      var init := rows[..|rows| - 1];
      assert init[..n] == rows[..n];
      MergeAborts(data, languages, keyField, init, columns, n);
    } else {
      assert rows[..n] == rows;
    }
  }

  /** One more row: the merge of `rows + [item]` extends that of `rows`. */
  lemma MergeRowsStep(data: map<string, seq<Record>>, languages: seq<string>, keyField: string,
                      rows: seq<Record>, item: Record, columns: seq<string>)
    requires |languages| > 0 && forall l :: l in languages ==> l in data
    ensures MergeRows(data, languages, keyField, rows + [item], columns) ==
      match MergeRows(data, languages, keyField, rows, columns)
      case Err(e) => Err(e)
      case Ok(m) =>
        match BuildEntry(data, languages, keyField, item, columns)
        case Err(e) => Err(e)
        case Ok(row) => Ok(Merged(m.entries + [row.entry], m.reports + Reports(|rows|, row.missing)))
  {
    var longer := rows + [item];
    assert longer[..|longer| - 1] == rows;
  }

  method MergeTable(data: map<string, seq<Record>>, languages: seq<string>, columns: seq<string>) returns (r: Result<Merged>)
    requires |languages| > 0 && forall l :: l in languages ==> l in data
    ensures r == Merge(data, languages, columns)
  {
    var primary := data[languages[0]];
    if |primary| == 0 {
      return Err(IndexError);
    }
    var keyField := if "Id" in primary[0] then "Id" else "Text";
    var entries: seq<Entry> := [];
    var reports: seq<Report> := [];
    for i := 0 to |primary|
      invariant MergeRows(data, languages, keyField, primary[..i], columns) == Ok(Merged(entries, reports))
    {
      var row := MergeItem(data, languages, keyField, primary[i], columns);
      assert primary[..i + 1] == primary[..i] + [primary[i]];
      MergeRowsStep(data, languages, keyField, primary[..i], primary[i], columns);
      if row.Err? {
        MergeAborts(data, languages, keyField, primary, columns, i + 1);
        return Err(row.error);
      }
      entries := entries + [row.value.entry];
      reports := reports + Reports(i, row.value.missing);
    }
    assert primary[..|primary|] == primary;
    return Ok(Merged(entries, reports));
  }

  // ---------------------------------------------------------------------
  // What the merge promises

  predicate Distinct(langs: seq<string>)
  {
    forall a, b :: 0 <= a < b < |langs| ==> langs[a] != langs[b]
  }

  /** Some record of `records` has the same key value as `item`. */
  ghost predicate HasCounterpart(records: seq<Record>, keyField: string, item: Record)
  {
    keyField in item &&
    exists j :: 0 <= j < |records| && keyField in records[j] && records[j][keyField] == item[keyField]
  }

  /** `entry` is the merged entry of primary record `item`: the primary
      language holds the item's columns; each other language is present
      exactly when it has a record with the same key, and holds the columns of
      the first such record; no other key is present. */
  ghost predicate EntryAgrees(data: map<string, seq<Record>>, languages: seq<string>, keyField: string,
                              item: Record, columns: seq<string>, entry: Entry)
    requires |languages| > 0 && forall l :: l in languages ==> l in data
  {
    && Extract(item, columns).Ok?
    && languages[0] in entry && entry[languages[0]] == Extract(item, columns).value
    && (forall l :: l in entry ==> l in languages)
    && (forall l :: l in languages[1..] ==> (l in entry <==> HasCounterpart(data[l], keyField, item)))
    && (forall l :: l in languages[1..] && l in entry ==>
          keyField in item &&
          exists j :: FirstKeyMatch(data[l], keyField, item[keyField], j) && Extract(data[l][j], columns) == Ok(entry[l]))
  }

  /** The inner loop fills in each language of `langs` exactly when it has a
      counterpart, and records the others as missing. */
  lemma {:induction false} FillEntryContents(data: map<string, seq<Record>>, langs: seq<string>, keyField: string,
                                             item: Record, columns: seq<string>, row: Row)
    requires forall l :: l in langs ==> l in data
    requires Distinct(langs) && forall l :: l in langs ==> l !in row.entry
    ensures var r := FillEntry(data, langs, keyField, item, columns, row);
            r.Ok? ==>
              && (forall l :: l in langs ==> Counterpart(data[l], keyField, item, columns).Ok?)
              && (forall l :: l in langs ==>
                    (l in r.value.entry <==> Counterpart(data[l], keyField, item, columns).value.Some?))
              && (forall l :: l in langs && l in r.value.entry ==>
                    r.value.entry[l] == Counterpart(data[l], keyField, item, columns).value.value)
              && (forall l :: l !in langs ==> (l in r.value.entry <==> l in row.entry))
              && (forall l :: l !in langs && l in row.entry ==> r.value.entry[l] == row.entry[l])
              && (forall l :: l in r.value.missing <==>
                    l in row.missing || (l in langs && Counterpart(data[l], keyField, item, columns).value.None?))
    decreases |langs|
  {
    if langs != [] {
      var l0 := langs[0];
      var rest := langs[1..];
      assert forall l :: l in langs <==> l == l0 || l in rest;
      assert l0 !in rest;
      assert Distinct(rest) by {
        forall a, b | 0 <= a < b < |rest| ensures rest[a] != rest[b] {
          assert rest[a] == langs[a + 1] && rest[b] == langs[b + 1];
        }
      }
      match Counterpart(data[l0], keyField, item, columns)
      case Err(e) =>
      case Ok(None) =>
        FillEntryContents(data, rest, keyField, item, columns, Row(row.entry, row.missing + [l0]));
      case Ok(Some(x)) =>
        FillEntryContents(data, rest, keyField, item, columns, Row(row.entry[l0 := x], row.missing));
    }
  }

  /** The entry for one primary record agrees with the records of every
      language, and its missing languages are the secondary languages it lacks. */
  lemma BuildEntryContents(data: map<string, seq<Record>>, languages: seq<string>, keyField: string,
                           item: Record, columns: seq<string>)
    requires |languages| > 0 && (forall l :: l in languages ==> l in data) && Distinct(languages)
    ensures var r := BuildEntry(data, languages, keyField, item, columns);
            r.Ok? ==>
              && EntryAgrees(data, languages, keyField, item, columns, r.value.entry)
              && forall l :: l in r.value.missing <==> l in languages[1..] && l !in r.value.entry
  {
    var rest := languages[1..];
    assert forall l :: l in languages <==> l == languages[0] || l in rest;
    assert Distinct(rest) by {
      forall a, b | 0 <= a < b < |rest| ensures rest[a] != rest[b] {
        assert rest[a] == languages[a + 1] && rest[b] == languages[b + 1];
      }
    }
    assert languages[0] !in rest;
    match Extract(item, columns)
    case Err(e) =>
    case Ok(p) =>
      FillEntryContents(data, rest, keyField, item, columns, Row(map[languages[0] := p], []));
  }

  /** The merged rows: one entry per primary record. */
  lemma {:induction false} MergeRowsLength(data: map<string, seq<Record>>, languages: seq<string>, keyField: string,
                                           rows: seq<Record>, columns: seq<string>)
    requires |languages| > 0 && forall l :: l in languages ==> l in data
    ensures var r := MergeRows(data, languages, keyField, rows, columns);
            r.Ok? ==> |r.value.entries| == |rows|
    decreases |rows|
  {
    if rows != [] {
      MergeRowsLength(data, languages, keyField, rows[..|rows| - 1], columns);
    }
  }

  /** The entry at position `i` of the merged rows is the entry built from
      primary record `i` alone. */
  lemma {:induction false} MergeRowsEntryAt(data: map<string, seq<Record>>, languages: seq<string>, keyField: string,
                                            rows: seq<Record>, columns: seq<string>, i: nat)
    requires |languages| > 0 && forall l :: l in languages ==> l in data
    requires i < |rows|
    ensures var r := MergeRows(data, languages, keyField, rows, columns);
            r.Ok? ==>
              && |r.value.entries| == |rows|
              && BuildEntry(data, languages, keyField, rows[i], columns).Ok?
              && r.value.entries[i] == BuildEntry(data, languages, keyField, rows[i], columns).value.entry
    decreases |rows|
  {
    var n := |rows| - 1;
    var init := rows[..n];
    MergeRowsLength(data, languages, keyField, rows, columns);
    MergeRowsLength(data, languages, keyField, init, columns);
    var r := MergeRows(data, languages, keyField, rows, columns);
    if r.Ok? {
      var m := MergeRows(data, languages, keyField, init, columns).value;
      var row := BuildEntry(data, languages, keyField, rows[n], columns).value;
      assert r.value.entries == m.entries + [row.entry];
      if i < n {
        MergeRowsEntryAt(data, languages, keyField, init, columns, i);
        assert rows[i] == init[i] && r.value.entries[i] == m.entries[i];
      } else {
        assert r.value.entries[i] == row.entry;
      }
    }
  }

  /** The merged rows: one entry per primary record, in order, each agreeing
      with its record. */
  lemma MergeRowsEntries(data: map<string, seq<Record>>, languages: seq<string>, keyField: string,
                         rows: seq<Record>, columns: seq<string>)
    requires |languages| > 0 && (forall l :: l in languages ==> l in data) && Distinct(languages)
    ensures var r := MergeRows(data, languages, keyField, rows, columns);
            r.Ok? ==>
              && |r.value.entries| == |rows|
              && forall i :: 0 <= i < |rows| ==> EntryAgrees(data, languages, keyField, rows[i], columns, r.value.entries[i])
  {
    MergeRowsLength(data, languages, keyField, rows, columns);
    forall i | 0 <= i < |rows|
      ensures var r := MergeRows(data, languages, keyField, rows, columns);
              r.Ok? ==> EntryAgrees(data, languages, keyField, rows[i], columns, r.value.entries[i])
    {
      MergeRowsEntryAt(data, languages, keyField, rows, columns, i);
      BuildEntryContents(data, languages, keyField, rows[i], columns);
    }
  }

  /** The merged rows report exactly the secondary languages each entry lacks. */
  lemma {:induction false} MergeRowsReports(data: map<string, seq<Record>>, languages: seq<string>, keyField: string,
                                            rows: seq<Record>, columns: seq<string>)
    requires |languages| > 0 && (forall l :: l in languages ==> l in data) && Distinct(languages)
    ensures var r := MergeRows(data, languages, keyField, rows, columns);
            r.Ok? ==>
              && |r.value.entries| == |rows|
              && forall i: nat, l :: MissingTranslation(i, l) in r.value.reports <==>
                   i < |rows| && l in languages[1..] && l !in r.value.entries[i]
    decreases |rows|
  {
    if rows != [] {
      var n := |rows| - 1;
      var init := rows[..n];
      MergeRowsReports(data, languages, keyField, init, columns);
      BuildEntryContents(data, languages, keyField, rows[n], columns);
      var r := MergeRows(data, languages, keyField, rows, columns);
      if r.Ok? {
        var m := MergeRows(data, languages, keyField, init, columns).value;
        var row := BuildEntry(data, languages, keyField, rows[n], columns).value;
        var tail := Reports(n, row.missing);
        assert r.value.entries == m.entries + [row.entry];
        assert r.value.reports == m.reports + tail;
        forall i: nat, l
          ensures MissingTranslation(i, l) in r.value.reports <==>
                  i < |rows| && l in languages[1..] && l !in r.value.entries[i]
        {
          assert MissingTranslation(i, l) in tail <==> i == n && l in row.missing by {
            if MissingTranslation(i, l) in tail {
              var k :| 0 <= k < |tail| && tail[k] == MissingTranslation(i, l);
            }
            if i == n && l in row.missing {
              var k :| 0 <= k < |row.missing| && row.missing[k] == l;
              assert tail[k] == MissingTranslation(i, l);
            }
          }
          if i < n {
            assert r.value.entries[i] == m.entries[i];
          }
        }
      }
    }
  }

  /** The merged table: the key field is "Id" when the first primary record
      has one and "Text" otherwise; there is exactly one entry per primary
      record, in primary order, each agreeing with the records of every
      language; a missing counterpart is reported and leaves only that
      language out. An empty primary list raises IndexError. */
  lemma MergeContents(data: map<string, seq<Record>>, languages: seq<string>, columns: seq<string>)
    requires |languages| > 0 && (forall l :: l in languages ==> l in data) && Distinct(languages)
    ensures |data[languages[0]]| == 0 ==> Merge(data, languages, columns) == Err(IndexError)
    ensures var primary := data[languages[0]];
            var r := Merge(data, languages, columns);
            r.Ok? ==>
              && |primary| > 0
              && var keyField := if "Id" in primary[0] then "Id" else "Text";
                 && |r.value.entries| == |primary|
                 && (forall i :: 0 <= i < |primary| ==>
                       EntryAgrees(data, languages, keyField, primary[i], columns, r.value.entries[i]))
                 && (forall i: nat, l :: MissingTranslation(i, l) in r.value.reports <==>
                       i < |primary| && l in languages[1..] && l !in r.value.entries[i])
  {
    var primary := data[languages[0]];
    if |primary| > 0 {
      var keyField := if "Id" in primary[0] then "Id" else "Text";
      MergeRowsEntries(data, languages, keyField, primary, columns);
      MergeRowsReports(data, languages, keyField, primary, columns);
    }
  }

  /** Every record of every language has the key field and every column. */
  ghost predicate WellFormed(data: map<string, seq<Record>>, languages: seq<string>, keyField: string, columns: seq<string>)
  {
    forall l, j :: l in languages && l in data && 0 <= j < |data[l]| ==>
      keyField in data[l][j] && forall c :: c in columns ==> c in data[l][j]
  }

  lemma {:induction false} FillEntrySucceeds(data: map<string, seq<Record>>, languages: seq<string>, langs: seq<string>,
                                             keyField: string, item: Record, columns: seq<string>, row: Row)
    requires (forall l :: l in languages ==> l in data) && (forall l :: l in langs ==> l in languages)
    requires WellFormed(data, languages, keyField, columns) && keyField in item
    ensures FillEntry(data, langs, keyField, item, columns, row).Ok?
    decreases |langs|
  {
    if langs != [] {
      var records := data[langs[0]];
      var found := FindResult(records, keyField, item[keyField]);
      if found.Ok? && found.value.Some? {
        var j :| FirstKeyMatch(records, keyField, item[keyField], j) && found.value.value == records[j];
      }
      match Counterpart(records, keyField, item, columns)
      case Err(e) =>
      case Ok(None) =>
        FillEntrySucceeds(data, languages, langs[1..], keyField, item, columns, Row(row.entry, row.missing + [langs[0]]));
      case Ok(Some(x)) =>
        FillEntrySucceeds(data, languages, langs[1..], keyField, item, columns, Row(row.entry[langs[0] := x], row.missing));
    }
  }

  lemma {:induction false} MergeRowsSucceeds(data: map<string, seq<Record>>, languages: seq<string>, keyField: string,
                                             rows: seq<Record>, columns: seq<string>)
    requires |languages| > 0 && forall l :: l in languages ==> l in data
    requires WellFormed(data, languages, keyField, columns)
    requires forall i :: 0 <= i < |rows| ==> keyField in rows[i] && forall c :: c in columns ==> c in rows[i]
    ensures MergeRows(data, languages, keyField, rows, columns).Ok?
    decreases |rows|
  {
    if rows != [] {
      var n := |rows| - 1;
      MergeRowsSucceeds(data, languages, keyField, rows[..n], columns);
      var item := rows[n];
      var p := Extract(item, columns);
      FillEntrySucceeds(data, languages, languages[1..], keyField, item, columns, Row(map[languages[0] := p.value], []));
    }
  }

  /** The merge raises nothing when the primary list is not empty and every
      record of every language has the key field and every column. */
  lemma MergeSucceeds(data: map<string, seq<Record>>, languages: seq<string>, columns: seq<string>)
    requires |languages| > 0 && forall l :: l in languages ==> l in data
    requires |data[languages[0]]| > 0
    requires WellFormed(data, languages, if "Id" in data[languages[0]][0] then "Id" else "Text", columns)
    ensures Merge(data, languages, columns).Ok?
  {
    var primary := data[languages[0]];
    var keyField := if "Id" in primary[0] then "Id" else "Text";
    MergeRowsSucceeds(data, languages, keyField, primary, columns);
  }
}
