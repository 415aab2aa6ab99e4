/**
 * The file helpers behind the settings and gallery pages: the settings CSV
 * file read into a dictionary and rewritten in place, the dates and photos
 * listed in the gallery, deleting a photo, and choosing a log file.
 *
 * The CSV tokeniser is left out: a settings file is its header and its rows,
 * each row a dictionary from column name to cell, as `csv.DictReader` yields
 * them. The photo tree is the sequence of files the directory walk visits,
 * in walk order, each with the base name of its directory (as in `Storage`).
 */
module FileUtils {
  import opened Wrappers
  import opened Strings
  import opened Assoc
  import opened ErrorHandlers
  import opened Storage

  // ---------------------------------------------------------------------------
  // Settings CSV file
  // ---------------------------------------------------------------------------

  /** One row as `csv.DictReader` yields it. */
  type Row = map<string, string>

  /** A parsed settings file: the header's field names and the rows in file order. */
  datatype CsvTable = CsvTable(fieldnames: seq<string>, rows: seq<Row>)

  /** Every row has a SETTING cell and a VALUE cell. */
  predicate HasSettingColumns(rows: seq<Row>)
  {
    forall i :: 0 <= i < |rows| ==> "SETTING" in rows[i] && "VALUE" in rows[i]
  }

  /** The (SETTING, VALUE) pair of each row, in order. */
  function SettingPairs(rows: seq<Row>): (pairs: seq<(string, string)>)
    requires HasSettingColumns(rows)
  {
    seq(|rows|, i requires 0 <= i < |rows| => (rows[i]["SETTING"], rows[i]["VALUE"]))
  }

  /**
   * `read_csv_settings`: SETTING to VALUE, a later row overwriting an earlier
   * one; an unreadable file, or a row without one of the two columns, gives
   * an empty dictionary.
   */
  function Settings(file: Option<CsvTable>): map<string, string>
  {
    if file.Some? && HasSettingColumns(file.value.rows) then LastWins(SettingPairs(file.value.rows))
    else map[]
  }

  /** `read_csv_settings` as the loop that fills the dictionary row by row. */
  method ReadCsvSettings(file: Option<CsvTable>) returns (settings: map<string, string>)
    ensures settings == Settings(file)
  {
    if file.None? {
      return map[];
    }
    var rows := file.value.rows;
    settings := map[];
    var i := 0;
    while i < |rows|
      invariant 0 <= i <= |rows|
      invariant HasSettingColumns(rows[..i])
      invariant settings == LastWins(SettingPairs(rows[..i]))
    {
      if "SETTING" !in rows[i] || "VALUE" !in rows[i] {
        return map[];
      }
      var pairs := SettingPairs(rows[..i + 1]);
      assert pairs[..i] == SettingPairs(rows[..i]);
      settings := settings[rows[i]["SETTING"] := rows[i]["VALUE"]];
      i := i + 1;
    }
    assert rows[..i] == rows;
  }

  /**
   * What reading gives for a well-formed file: exactly the settings named in
   * some row, each with the VALUE of the last row that names it.
   */
  lemma SettingsOfRows(t: CsvTable, i: int)
    requires HasSettingColumns(t.rows) && 0 <= i < |t.rows|
    requires forall j :: i < j < |t.rows| ==> t.rows[j]["SETTING"] != t.rows[i]["SETTING"]
    ensures Settings(Some(t)).Keys == set j | 0 <= j < |t.rows| :: t.rows[j]["SETTING"]
    ensures Settings(Some(t))[t.rows[i]["SETTING"]] == t.rows[i]["VALUE"]
  {
    var pairs := SettingPairs(t.rows);
    assert forall j :: 0 <= j < |t.rows| ==> pairs[j].0 == t.rows[j]["SETTING"];
    LastWinsValue(pairs, i);
  }

  /** A row after the update: VALUE replaced when its SETTING is one of the new settings. */
  function UpdateRow(row: Row, settings: map<string, string>): (r: Row)
    requires "SETTING" in row
    ensures r.Keys == row.Keys + (if row["SETTING"] in settings then {"VALUE"} else {})
    ensures forall c :: c in row && c != "VALUE" ==> r[c] == row[c]
    ensures row["SETTING"] in settings ==> r["VALUE"] == settings[row["SETTING"]]
    ensures row["SETTING"] !in settings ==> r == row
  {
    if row["SETTING"] in settings then row["VALUE" := settings[row["SETTING"]]] else row
  }

  /** Every row has a SETTING cell. */
  predicate HasSettingColumn(rows: seq<Row>)
  {
    forall i :: 0 <= i < |rows| ==> "SETTING" in rows[i]
  }

  /** The rows after the update loop, in their order. */
  function UpdateRows(rows: seq<Row>, settings: map<string, string>): (r: seq<Row>)
    requires HasSettingColumn(rows)
  {
    seq(|rows|, i requires 0 <= i < |rows| => UpdateRow(rows[i], settings))
  }

  /** The columns of a header. */
  function Columns(fieldnames: seq<string>): set<string>
  {
    set c | c in fieldnames
  }

  /** `csv.DictWriter` writes a row only when each of its keys is a column. */
  predicate Fits(fieldnames: seq<string>, row: Row)
  {
    row.Keys <= Columns(fieldnames)
  }

  /** The row read back after `csv.DictWriter` wrote it: a missing column is written empty. */
  function Filled(fieldnames: seq<string>, row: Row): (r: Row)
    ensures r.Keys == Columns(fieldnames)
    ensures forall c :: c in row && c in Columns(fieldnames) ==> r[c] == row[c]
  {
    map c | c in Columns(fieldnames) :: if c in row then row[c] else ""
  }

  /** The number of leading rows that `writerows` writes before one that does not fit. */
  function FittingPrefix(fieldnames: seq<string>, rows: seq<Row>): (k: nat)
    ensures k <= |rows|
    ensures forall i :: 0 <= i < k ==> Fits(fieldnames, rows[i])
    ensures k < |rows| ==> !Fits(fieldnames, rows[k])
    decreases |rows|
  {
    if rows == [] || !Fits(fieldnames, rows[0]) then 0
    else 1 + FittingPrefix(fieldnames, rows[1..])
  }

  /** The rows the file holds after `writerows` wrote `rows` under the header. */
  function WrittenRows(fieldnames: seq<string>, rows: seq<Row>): (out: seq<Row>)
  {
    var k := FittingPrefix(fieldnames, rows);
    seq(k, i requires 0 <= i < k => Filled(fieldnames, rows[i]))
  }

  /**
   * `write_csv_settings`: whether it succeeded and what the file holds
   * afterwards (`None`: the file is not touched). An unreadable file or a row
   * without SETTING fails before anything is written; a file that cannot be
   * opened for writing fails too. Otherwise the header is written, then the
   * updated rows up to the first one with a cell outside the header, where
   * the writer raises.
   */
  function WriteSettings(settings: map<string, string>, file: Option<CsvTable>, writable: bool)
    : (r: (bool, Option<CsvTable>))
  {
    if file.None? || !HasSettingColumn(file.value.rows) || !writable then (false, None)
    else
      var rows := UpdateRows(file.value.rows, settings);
      (FittingPrefix(file.value.fieldnames, rows) == |rows|,
       Some(CsvTable(file.value.fieldnames, WrittenRows(file.value.fieldnames, rows))))
  }

  /** The update loop of `write_csv_settings`: sets VALUE in each row whose SETTING has a new value. */
  method UpdateSettingRows(rows: seq<Row>, settings: map<string, string>) returns (ok: bool, updated: seq<Row>)
    ensures ok <==> HasSettingColumn(rows)
    ensures ok ==> updated == UpdateRows(rows, settings)
  {
    updated := rows;
    var i := 0;
    while i < |updated|
      invariant 0 <= i <= |updated| == |rows|
      invariant HasSettingColumn(rows[..i])
      invariant forall j :: 0 <= j < i ==> updated[j] == UpdateRow(rows[j], settings)
      invariant forall j :: i <= j < |rows| ==> updated[j] == rows[j]
    {
      if "SETTING" !in updated[i] {
        assert !("SETTING" in rows[i]);
        return false, updated;
      }
      if updated[i]["SETTING"] in settings {
        updated := updated[i := updated[i]["VALUE" := settings[updated[i]["SETTING"]]]];
      }
      assert rows[..i + 1] == rows[..i] + [rows[i]];
      i := i + 1;
    }
    assert rows[..i] == rows;
    ok := true;
  }

  /** The fitting prefix ends at the first row that does not fit, or at the end. */
  lemma {:induction false} FittingPrefixAt(fieldnames: seq<string>, rows: seq<Row>, i: nat)
    requires i <= |rows|
    requires forall j :: 0 <= j < i ==> Fits(fieldnames, rows[j])
    requires i < |rows| ==> !Fits(fieldnames, rows[i])
    ensures FittingPrefix(fieldnames, rows) == i
    decreases i
  {
    if i > 0 {
      FittingPrefixAt(fieldnames, rows[1..], i - 1);
    }
  }

  /** `writer.writerows(rows)`: writes rows until one does not fit the header. */
  method WriteRows(fieldnames: seq<string>, rows: seq<Row>) returns (complete: bool, out: seq<Row>)
    ensures complete <==> FittingPrefix(fieldnames, rows) == |rows|
    ensures out == WrittenRows(fieldnames, rows)
  {
    out := [];
    var i := 0;
    while i < |rows| && Fits(fieldnames, rows[i])
      invariant 0 <= i <= |rows|
      invariant forall j :: 0 <= j < i ==> Fits(fieldnames, rows[j])
      invariant |out| == i
      invariant forall j :: 0 <= j < i ==> out[j] == Filled(fieldnames, rows[j])
    {
      out := out + [Filled(fieldnames, rows[i])];
      i := i + 1;
    }
    FittingPrefixAt(fieldnames, rows, i);
    complete := i == |rows|;
  }

  /** `write_csv_settings` with its update loop and its write loop. */
  method WriteCsvSettings(settings: map<string, string>, file: Option<CsvTable>, writable: bool)
      returns (ok: bool, written: Option<CsvTable>)
    ensures (ok, written) == WriteSettings(settings, file, writable)
  {
    if file.None? {
      return false, None;
    }
    var hasSetting, rows := UpdateSettingRows(file.value.rows, settings);
    if !hasSetting || !writable {
      return false, None;
    }
    var complete, out := WriteRows(file.value.fieldnames, rows);
    return complete, Some(CsvTable(file.value.fieldnames, out));
  }

  /**
   * A successful write changes only the VALUE cell, only in rows whose
   * SETTING is one of the new settings, and keeps the header and the row
   * order.
   */
  lemma WriteChangesOnlyValues(settings: map<string, string>, t: CsvTable, i: int, c: string)
    requires WriteSettings(settings, Some(t), true).0
    requires 0 <= i < |t.rows| && c in t.rows[i] && c != "VALUE"
    ensures var w := WriteSettings(settings, Some(t), true).1.value;
      w.fieldnames == t.fieldnames && |w.rows| == |t.rows| && w.rows[i][c] == t.rows[i][c]
    ensures var w := WriteSettings(settings, Some(t), true).1.value;
      t.rows[i]["SETTING"] in settings ==> w.rows[i]["VALUE"] == settings[t.rows[i]["SETTING"]]
  {
    var rows := UpdateRows(t.rows, settings);
    assert Fits(t.fieldnames, rows[i]);
    assert WrittenRows(t.fieldnames, rows)[i] == Filled(t.fieldnames, rows[i]);
  }

  /** A row written in full reads back with its SETTING and its new VALUE. */
  lemma WrittenPair(fieldnames: seq<string>, row: Row, settings: map<string, string>)
    requires "SETTING" in row && "VALUE" in row && Fits(fieldnames, UpdateRow(row, settings))
    ensures var w := Filled(fieldnames, UpdateRow(row, settings));
      "SETTING" in w && "VALUE" in w && w["SETTING"] == row["SETTING"]
      && w["VALUE"] == if row["SETTING"] in settings then settings[row["SETTING"]] else row["VALUE"]
  {
  }

  /**
   * Writing settings and reading the file back gives the settings read
   * before, each replaced by its new value when it has one: a new setting
   * that names no row is not added.
   */
  lemma WriteThenRead(settings: map<string, string>, t: CsvTable)
    requires HasSettingColumns(t.rows)
    requires WriteSettings(settings, Some(t), true).0
    ensures var before := Settings(Some(t));
      Settings(WriteSettings(settings, Some(t), true).1)
      == map k | k in before :: if k in settings then settings[k] else before[k]
  {
    var pairs := SettingPairs(t.rows);
    WrittenPairs(settings, t);
    LastWinsUpdate(pairs, settings);
  }

  /** The pairs read back from a complete write are the old pairs with their values updated. */
  lemma WrittenPairs(settings: map<string, string>, t: CsvTable)
    requires HasSettingColumns(t.rows)
    requires WriteSettings(settings, Some(t), true).0
    ensures var w := WriteSettings(settings, Some(t), true).1;
      w.Some? && HasSettingColumns(w.value.rows)
      && Settings(w) == LastWins(UpdateValues(SettingPairs(t.rows), settings))
  {
    assert HasSettingColumn(t.rows);
    CompleteWrite(settings, t);
    WrittenInFull(t.fieldnames, t.rows, settings);
    FilledPairs(t.fieldnames, t.rows, settings, WrittenRows(t.fieldnames, UpdateRows(t.rows, settings)));
  }

  /** A write that succeeds leaves the header and every updated row. */
  lemma CompleteWrite(settings: map<string, string>, t: CsvTable)
    requires HasSettingColumn(t.rows) && WriteSettings(settings, Some(t), true).0
    ensures WriteSettings(settings, Some(t), true).1
         == Some(CsvTable(t.fieldnames, WrittenRows(t.fieldnames, UpdateRows(t.rows, settings))))
    ensures FittingPrefix(t.fieldnames, UpdateRows(t.rows, settings)) == |t.rows|
  {
  }

  /** When every updated row fits, each is written, filled out to the header. */
  lemma WrittenInFull(fieldnames: seq<string>, rows: seq<Row>, settings: map<string, string>)
    requires HasSettingColumn(rows) && FittingPrefix(fieldnames, UpdateRows(rows, settings)) == |rows|
    ensures var w := WrittenRows(fieldnames, UpdateRows(rows, settings));
      && |w| == |rows|
      && forall i :: 0 <= i < |rows| ==>
           Fits(fieldnames, UpdateRow(rows[i], settings)) && w[i] == Filled(fieldnames, UpdateRow(rows[i], settings))
  {
    var u := UpdateRows(rows, settings);
    forall i | 0 <= i < |rows|
      ensures Fits(fieldnames, UpdateRow(rows[i], settings))
    {
      assert u[i] == UpdateRow(rows[i], settings);
    }
  }

  /** Rows that fit, updated and written in full, give the updated (SETTING, VALUE) pairs. */
  lemma FilledPairs(fieldnames: seq<string>, rows: seq<Row>, settings: map<string, string>, w: seq<Row>)
    requires HasSettingColumns(rows) && |w| == |rows|
    requires forall i :: 0 <= i < |rows| ==>
      Fits(fieldnames, UpdateRow(rows[i], settings)) && w[i] == Filled(fieldnames, UpdateRow(rows[i], settings))
    ensures HasSettingColumns(w) && SettingPairs(w) == UpdateValues(SettingPairs(rows), settings)
  {
    var pairs := SettingPairs(rows);
    var updated := UpdateValues(pairs, settings);
    forall i | 0 <= i < |w|
      ensures "SETTING" in w[i] && "VALUE" in w[i]
      ensures (w[i]["SETTING"], w[i]["VALUE"]) == updated[i]
    {
      WrittenPair(fieldnames, rows[i], settings);
      UpdateValuesAt(pairs, settings, i);
    }
  }

  // ---------------------------------------------------------------------------
  // Gallery dates
  // ---------------------------------------------------------------------------

  /** The test `get_photo_dates` applies to a directory name: starts with "20" and is ten characters long. */
  predicate LooksLikeDate(dir: string)
  {
    StartsWith(dir, "20") && |dir| == 10
  }

  /** The directories that hold a photo and look like a date. */
  function PhotoDateSet(walk: seq<PhotoFile>): set<string>
  {
    set f | f in walk && IsPhotoFile(f.name) && LooksLikeDate(f.dir) :: f.dir
  }

  /** One more file walked adds its directory when it is a photo in a date-like directory. */
  lemma PhotoDateSetAppend(walk: seq<PhotoFile>, f: PhotoFile)
    ensures PhotoDateSet(walk + [f])
         == PhotoDateSet(walk) + (if IsPhotoFile(f.name) && LooksLikeDate(f.dir) then {f.dir} else {})
  {
    assert forall g :: g in walk + [f] <==> g in walk || g == f;
  }

  /** The walk of `get_photo_dates`: the set of date-like directories holding a photo. */
  method CollectPhotoDates(walk: seq<PhotoFile>) returns (found: set<string>)
    ensures found == PhotoDateSet(walk)
  {
    found := {};
    var i := 0;
    while i < |walk|
      invariant 0 <= i <= |walk|
      invariant found == PhotoDateSet(walk[..i])
    {
      assert walk[..i + 1] == walk[..i] + [walk[i]];
      PhotoDateSetAppend(walk[..i], walk[i]);
      if IsPhotoFile(walk[i].name) && LooksLikeDate(walk[i].dir) {
        found := found + {walk[i].dir};
      }
      i := i + 1;
    }
    assert walk[..i] == walk;
  }

  /** `list(dates)`: the elements of the set, each once, in some order. */
  method ListOf(found: set<string>) returns (list: seq<string>)
    ensures Distinct(list)
    ensures forall d :: d in list <==> d in found
  {
    list := [];
    var rest := found;
    while rest != {}
      invariant Distinct(list)
      invariant forall d :: d in list ==> d !in rest
      invariant forall d :: d in found <==> d in list || d in rest
      decreases |rest|
    {
      var d :| d in rest;
      list := list + [d];
      rest := rest - {d};
    }
  }

  /**
   * `get_photo_dates`: each directory named like a date that holds a photo
   * file, once, newest first.
   */
  method GetPhotoDates(walk: seq<PhotoFile>) returns (dates: seq<string>)
    ensures forall d :: d in dates <==> d in PhotoDateSet(walk)
    ensures Distinct(dates) && SortedDesc(dates)
  {
    var found := CollectPhotoDates(walk);
    var list := ListOf(found);
    dates := SortDesc(list);
    DistinctPermutation(list, dates);
    assert forall d :: d in dates <==> d in multiset(list);
  }

  // ---------------------------------------------------------------------------
  // Gallery photos
  // ---------------------------------------------------------------------------

  /** One entry of the list `get_photos` returns. */
  datatype GalleryPhoto = GalleryPhoto(filename: string, url: string, thumbnailUrl: string,
                                       date: string, time: string, exposure: int, focus: int)

  /**
   * The time shown for a photo file: the fourth, fifth and sixth
   * `_`-separated parts of its name, the sixth cut at its first '.', joined
   * with ':'; "00:00:00" for a name with fewer than six parts.
   */
  function PhotoTime(name: string): string
  {
    var parts := Split(name, '_');
    if |parts| >= 6 then parts[3] + ":" + parts[4] + ":" + Split(parts[5], '.')[0]
    else "00:00:00"
  }

  /** A name of `_`-free parts, six or more, whose sixth part has no '.', shows its fourth to sixth parts. */
  lemma PhotoTimeOfParts(parts: seq<string>)
    requires |parts| >= 6 && forall k :: 0 <= k < |parts| ==> Free(parts[k], '_')
    requires Free(parts[5], '.')
    ensures PhotoTime(Join(parts, '_')) == parts[3] + ":" + parts[4] + ":" + parts[5]
  {
    SplitJoin(parts, '_');
    SplitOfFree(parts[5], '.');
  }

  /** A name of fewer than six `_`-free parts shows midnight. */
  lemma PhotoTimeOfShortName(parts: seq<string>)
    requires 1 <= |parts| < 6 && forall k :: 0 <= k < |parts| ==> Free(parts[k], '_')
    ensures PhotoTime(Join(parts, '_')) == "00:00:00"
  {
    SplitJoin(parts, '_');
  }

  /**
   * For a name in the documented camera format
   * `device_YYYY_MM_DD__HH_MM_SS_HDRx.jpg` the shown time is the day, an
   * empty field and the hour: `DD::HH`, not `HH:MM:SS`.
   */
  lemma DocumentedNameShowsDayAndHour(device: string, y: string, m: string, d: string,
                                      hh: string, mm: string, ss: string, tail: string)
    requires forall s :: s in [device, y, m, d, hh, mm, ss, tail] ==> Free(s, '_')
    requires Free(hh, '.')
    ensures PhotoTime(Join([device, y, m, d, "", hh, mm, ss, tail], '_')) == d + "::" + hh
  {
    var parts := [device, y, m, d, "", hh, mm, ss, tail];
    assert forall k :: 0 <= k < |parts| ==> parts[k] in [device, y, m, d, hh, mm, ss, tail] || parts[k] == "";
    PhotoTimeOfParts(parts);
  }

  /** The entry listed for a photo file. */
  function Entry(f: PhotoFile): (e: GalleryPhoto)
    ensures e.filename == f.name && e.date == f.dir && e.time == PhotoTime(f.name)
    ensures e.exposure == 0 && e.focus == 0
  {
    GalleryPhoto(f.name, "/api/gallery/photos/view/" + f.dir + "/" + f.name,
                 "/api/gallery/photos/thumbnail/" + f.dir + "/" + f.name, f.dir, PhotoTime(f.name), 0, 0)
  }

  /** A file is listed when it is a photo and the date filter, if truthy, names its directory. */
  predicate Shown(date: Option<string>, f: PhotoFile)
  {
    IsPhotoFile(f.name) && (date.None? || date.value == "" || f.dir == date.value)
  }

  /** The entries of the shown files, in walk order. */
  function Listed(walk: seq<PhotoFile>, date: Option<string>): (es: seq<GalleryPhoto>)
    ensures |es| <= |walk|
  {
    if walk == [] then []
    else
      var f := walk[|walk| - 1];
      Listed(walk[..|walk| - 1], date) + (if Shown(date, f) then [Entry(f)] else [])
  }

  lemma {:induction false} ListedMember(walk: seq<PhotoFile>, date: Option<string>, e: GalleryPhoto)
    ensures e in Listed(walk, date) <==> exists f :: f in walk && Shown(date, f) && e == Entry(f)
    decreases |walk|
  {
    if walk != [] {
      ListedMember(walk[..|walk| - 1], date, e);
      assert walk == walk[..|walk| - 1] + [walk[|walk| - 1]];
    }
  }

  /** Python's order on the tuple `(date, time)`. */
  predicate Older(a: GalleryPhoto, b: GalleryPhoto)
  {
    Less(a.date, b.date) || (a.date == b.date && Less(a.time, b.time))
  }

  lemma OlderTransitive(a: GalleryPhoto, b: GalleryPhoto, c: GalleryPhoto)
    requires Older(a, b) && Older(b, c)
    ensures Older(a, c)
  {
    if Less(a.date, b.date) && Less(b.date, c.date) {
      LessTransitive(a.date, b.date, c.date);
    } else if a.date == b.date && b.date == c.date {
      LessTransitive(a.time, b.time, c.time);
    }
  }

  /** Two entries with different (date, time) are ordered one way or the other. */
  lemma OlderTotal(a: GalleryPhoto, b: GalleryPhoto)
    ensures (a.date, a.time) == (b.date, b.time) || Older(a, b) || Older(b, a)
  {
    LessTotal(a.date, b.date);
    LessTotal(a.time, b.time);
  }

  /** Entries ordered by `Older` differ in (date, time), and are not ordered the other way. */
  lemma OlderDiffers(a: GalleryPhoto, b: GalleryPhoto)
    requires Older(a, b)
    ensures (a.date, a.time) != (b.date, b.time) && !Older(b, a)
  {
    LessIrreflexive(a.date);
    LessIrreflexive(a.time);
    if Less(a.date, b.date) {
      LessAsymmetric(a.date, b.date);
    } else {
      LessAsymmetric(a.time, b.time);
    }
  }

  /** Whatever is not older than `a` is not older than anything `a` is older than. */
  lemma NotOlderThrough(a: GalleryPhoto, b: GalleryPhoto, c: GalleryPhoto)
    requires Older(a, b) && !Older(a, c)
    ensures !Older(b, c)
  {
    if Older(b, c) {
      OlderTransitive(a, b, c);
    }
  }

  /** Newest first: no entry is older than one after it. */
  predicate NewestFirst(s: seq<GalleryPhoto>)
  {
    forall i, j :: 0 <= i < j < |s| ==> !Older(s[i], s[j])
  }

  /** Inserts `x` into a newest-first list before the first entry older than it. */
  function InsertByTime(x: GalleryPhoto, s: seq<GalleryPhoto>): (r: seq<GalleryPhoto>)
    ensures multiset(r) == multiset(s) + multiset{x}
    ensures |r| == |s| + 1
  {
    if s == [] then [x]
    else if Older(s[0], x) then [x] + s
    else
      assert s == [s[0]] + s[1..];
      [s[0]] + InsertByTime(x, s[1..])
  }

  /** `photos.sort(key=lambda x: (x['date'], x['time']), reverse=True)`: a stable sort, newest first. */
  function SortByTime(ps: seq<GalleryPhoto>): (r: seq<GalleryPhoto>)
    ensures multiset(r) == multiset(ps)
  {
    if ps == [] then []
    else
      assert ps == ps[..|ps| - 1] + [ps[|ps| - 1]];
      InsertByTime(ps[|ps| - 1], SortByTime(ps[..|ps| - 1]))
  }

  /** The entries after an insertion are the old ones and `x`. */
  lemma InsertByTimeMember(x: GalleryPhoto, s: seq<GalleryPhoto>, e: GalleryPhoto)
    ensures e in InsertByTime(x, s) <==> e == x || e in s
  {
    assert e in InsertByTime(x, s) <==> e in multiset(InsertByTime(x, s));
  }

  /** `x` goes in front of a newest-first list whose head is older than it. */
  lemma InsertInFront(x: GalleryPhoto, s: seq<GalleryPhoto>)
    requires NewestFirst(s) && s != [] && Older(s[0], x)
    ensures NewestFirst([x] + s)
  {
    var r := [x] + s;
    OlderDiffers(s[0], x);
    forall j | 1 < j < |r|
      ensures !Older(x, r[j])
    {
      assert r[j] == s[j - 1];
      NotOlderThrough(s[0], x, s[j - 1]);
    }
  }

  /** The head stays in front when it is not older than `x`. */
  lemma InsertBehindHead(x: GalleryPhoto, s: seq<GalleryPhoto>)
    requires NewestFirst(s) && s != [] && !Older(s[0], x)
    requires NewestFirst(InsertByTime(x, s[1..]))
    ensures NewestFirst([s[0]] + InsertByTime(x, s[1..]))
  {
    var rest := InsertByTime(x, s[1..]);
    forall e | e in rest
      ensures !Older(s[0], e)
    {
      InsertByTimeMember(x, s[1..], e);
      if e != x {
        HeadNotOlderThanTail(s, e);
      }
    }
    ConsNewestFirst(s[0], rest);
  }

  lemma HeadNotOlderThanTail(s: seq<GalleryPhoto>, e: GalleryPhoto)
    requires NewestFirst(s) && s != [] && e in s[1..]
    ensures !Older(s[0], e)
  {
    var k :| 0 <= k < |s[1..]| && s[1..][k] == e;
    assert s[k + 1] == e;
  }

  /** A newest-first list stays so with a head that is not older than any of its entries. */
  lemma ConsNewestFirst(h: GalleryPhoto, rest: seq<GalleryPhoto>)
    requires NewestFirst(rest)
    requires forall e :: e in rest ==> !Older(h, e)
    ensures NewestFirst([h] + rest)
  {
    var r := [h] + rest;
    forall i, j | 0 <= i < j < |r|
      ensures !Older(r[i], r[j])
    {
      assert r[j] == rest[j - 1];
      if i > 0 {
        assert r[i] == rest[i - 1];
      }
    }
  }

  lemma {:induction false} InsertByTimeSorted(x: GalleryPhoto, s: seq<GalleryPhoto>)
    requires NewestFirst(s)
    ensures NewestFirst(InsertByTime(x, s))
    decreases |s|
  {
    if s != [] {
      if Older(s[0], x) {
        InsertInFront(x, s);
      } else {
        InsertByTimeSorted(x, s[1..]);
        InsertBehindHead(x, s);
      }
    }
  }

  /** The sort leaves the list newest first. */
  lemma {:induction false} SortByTimeSorted(ps: seq<GalleryPhoto>)
    ensures NewestFirst(SortByTime(ps))
    decreases |ps|
  {
    if ps != [] {
      SortByTimeSorted(ps[..|ps| - 1]);
      InsertByTimeSorted(ps[|ps| - 1], SortByTime(ps[..|ps| - 1]));
    }
  }

  /** The entries of `s` with a given (date, time), in their order. */
  function Taken(s: seq<GalleryPhoto>, at: (string, string)): (r: seq<GalleryPhoto>)
    ensures forall e :: e in r ==> e in s && (e.date, e.time) == at
    decreases |s|
  {
    if s == [] then []
    else (if (s[0].date, s[0].time) == at then [s[0]] else []) + Taken(s[1..], at)
  }

  lemma {:induction false} TakenAppend(a: seq<GalleryPhoto>, b: seq<GalleryPhoto>, at: (string, string))
    ensures Taken(a + b, at) == Taken(a, at) + Taken(b, at)
    decreases |a|
  {
    if a != [] {
      TakenAppend(a[1..], b, at);
      var head := if (a[0].date, a[0].time) == at then [a[0]] else [];
      assert (a + b)[0] == a[0];
      assert (a + b)[1..] == a[1..] + b;
      assert Taken(a + b, at) == head + Taken(a[1..] + b, at);
      assert Taken(a, at) == head + Taken(a[1..], at);
    } else {
      assert a + b == b;
    }
  }

  /** Nothing is taken at a (date, time) no entry has. */
  lemma {:induction false} TakenNone(s: seq<GalleryPhoto>, at: (string, string))
    requires forall j :: 0 <= j < |s| ==> (s[j].date, s[j].time) != at
    ensures Taken(s, at) == []
    decreases |s|
  {
    if s != [] {
      TakenNone(s[1..], at);
    }
  }

  /** In a newest-first list whose first entry is older than `x`, no entry has `x`'s (date, time). */
  lemma NoneTakenAfterOlder(x: GalleryPhoto, s: seq<GalleryPhoto>)
    requires NewestFirst(s) && s != [] && Older(s[0], x)
    ensures Taken(s, (x.date, x.time)) == []
  {
    OlderDiffers(s[0], x);
    forall j | 0 < j < |s|
      ensures (s[j].date, s[j].time) != (x.date, x.time)
    {
      assert !Older(s[0], s[j]);
    }
    TakenNone(s, (x.date, x.time));
  }

  lemma {:induction false} InsertByTimeStable(x: GalleryPhoto, s: seq<GalleryPhoto>, at: (string, string))
    requires NewestFirst(s)
    ensures Taken(InsertByTime(x, s), at) == Taken(s, at) + (if (x.date, x.time) == at then [x] else [])
    decreases |s|
  {
    if s == [] {
    } else if Older(s[0], x) {
      assert ([x] + s)[1..] == s;
      if (x.date, x.time) == at {
        NoneTakenAfterOlder(x, s);
      }
    } else {
      InsertByTimeStable(x, s[1..], at);
      assert ([s[0]] + InsertByTime(x, s[1..]))[1..] == InsertByTime(x, s[1..]);
    }
  }

  /**
   * The sort is stable: the entries taken at any one (date, time) keep the
   * order they had before sorting.
   */
  lemma {:induction false} SortByTimeStable(ps: seq<GalleryPhoto>, at: (string, string))
    ensures Taken(SortByTime(ps), at) == Taken(ps, at)
    decreases |ps|
  {
    if ps != [] {
      var init := ps[..|ps| - 1];
      var x := ps[|ps| - 1];
      var sorted := SortByTime(init);
      var single := if (x.date, x.time) == at then [x] else [];
      assert ps == init + [x];
      assert Taken([x], at) == single;
      SortByTimeSorted(init);
      calc {
        Taken(SortByTime(ps), at);
        Taken(InsertByTime(x, sorted), at);
        { InsertByTimeStable(x, sorted, at); }
        Taken(sorted, at) + single;
        { SortByTimeStable(init, at); }
        Taken(init, at) + single;
        { TakenAppend(init, [x], at); }
        Taken(ps, at);
      }
    }
  }

  /**
   * `get_photos`: an entry for each photo file the walk visits whose
   * directory the date filter (if truthy) names, then sorted newest first.
   */
  method GetPhotos(walk: seq<PhotoFile>, date: Option<string>) returns (photos: seq<GalleryPhoto>)
    ensures photos == SortByTime(Listed(walk, date))
  {
    photos := [];
    var i := 0;
    while i < |walk|
      invariant 0 <= i <= |walk|
      invariant photos == Listed(walk[..i], date)
    {
      assert walk[..i + 1][..i] == walk[..i];
      if Shown(date, walk[i]) {
        photos := photos + [Entry(walk[i])];
      }
      i := i + 1;
    }
    assert walk[..i] == walk;
    photos := SortByTime(photos);
  }

  /**
   * What the gallery shows: exactly the entries of the shown files, newest
   * first, with those of equal (date, time) in walk order.
   */
  lemma GalleryListing(walk: seq<PhotoFile>, date: Option<string>, e: GalleryPhoto, at: (string, string))
    ensures var photos := SortByTime(Listed(walk, date));
      NewestFirst(photos)
      && (e in photos <==> exists f :: f in walk && Shown(date, f) && e == Entry(f))
      && Taken(photos, at) == Taken(Listed(walk, date), at)
  {
    SortByTimeSorted(Listed(walk, date));
    ListedMember(walk, date, e);
    assert e in SortByTime(Listed(walk, date)) <==> e in multiset(Listed(walk, date));
    SortByTimeStable(Listed(walk, date), at);
  }

  // ---------------------------------------------------------------------------
  // Deleting a photo
  // ---------------------------------------------------------------------------

  /** The index of the first file called `name` in walk order. */
  function FirstNamed(files: seq<PhotoFile>, name: string): (r: Option<nat>)
    ensures r.Some? ==> r.value < |files| && files[r.value].name == name
    ensures r.Some? ==> forall j :: 0 <= j < r.value ==> files[j].name != name
    ensures r.None? ==> forall j :: 0 <= j < |files| ==> files[j].name != name
    decreases |files|
  {
    if files == [] then None
    else if files[0].name == name then Some(0)
    else
      match FirstNamed(files[1..], name)
      case None => None
      case Some(i) => Some(i + 1)
  }

  /** The photo tree as the walk sees it. */
  class PhotoTree {
    var files: seq<PhotoFile>

    constructor (files: seq<PhotoFile>)
      ensures this.files == files
    {
      this.files := files;
    }
  }

  /**
   * `delete_photo`: removes the first file called `filename` in walk order
   * and answers true; when there is none, FILE_NOT_FOUND; when the removal
   * fails with `removeError`, SYSTEM_COMMAND_FAILED with the error as detail
   * and nothing removed.
   */
  method DeletePhoto(tree: PhotoTree, filename: string, removeError: Option<string>)
      returns (r: Result<bool, APIError>)
    modifies tree
    ensures FirstNamed(old(tree.files), filename).None? ==>
      r == Failure(APIError(FILE_NOT_FOUND, "Photo not found: " + filename, None)) && tree.files == old(tree.files)
    ensures FirstNamed(old(tree.files), filename).Some? && removeError.Some? ==>
      r == Failure(APIError(SYSTEM_COMMAND_FAILED, "Failed to delete photo: " + filename,
                            Some(map["error" := removeError.value])))
      && tree.files == old(tree.files)
    ensures FirstNamed(old(tree.files), filename).Some? && removeError.None? ==>
      var i := FirstNamed(old(tree.files), filename).value;
      r == Success(true) && tree.files == old(tree.files)[..i] + old(tree.files)[i + 1..]
  {
    var i := 0;
    while i < |tree.files| && tree.files[i].name != filename
      invariant 0 <= i <= |tree.files|
      invariant forall j :: 0 <= j < i ==> tree.files[j].name != filename
    {
      i := i + 1;
    }
    if i == |tree.files| {
      return Failure(APIError(FILE_NOT_FOUND, "Photo not found: " + filename, None));
    }
    assert FirstNamed(tree.files, filename) == Some(i) by {
      var k := FirstNamed(tree.files, filename);
      assert tree.files[i].name == filename;
      assert k.Some?;
      assert tree.files[k.value].name == filename;
    }
    if removeError.Some? {
      return Failure(APIError(SYSTEM_COMMAND_FAILED, "Failed to delete photo: " + filename,
                              Some(map["error" := removeError.value])));
    }
    tree.files := tree.files[..i] + tree.files[i + 1..];
    return Success(true);
  }

  /** Deleting leaves one file called `filename` fewer and every other file where it was. */
  lemma DeleteRemovesOne(files: seq<PhotoFile>, filename: string)
    requires FirstNamed(files, filename).Some?
    ensures var i := FirstNamed(files, filename).value;
      multiset(files[..i] + files[i + 1..]) == multiset(files) - multiset{files[i]}
  {
    var i := FirstNamed(files, filename).value;
    MultisetRemoveAt(files, i);
  }

  // ---------------------------------------------------------------------------
  // Logs
  // ---------------------------------------------------------------------------

  /** The file in the log directory for a log type; only these four have one. */
  function LogFileName(logType: string): (name: Option<string>)
    ensures name.Some? <==> logType in {"camera", "scheduler", "power", "web"}
  {
    if logType == "camera" then Some("camera.log")
    else if logType == "scheduler" then Some("scheduler.log")
    else if logType == "power" then Some("power.log")
    else if logType == "web" then Some("creaturebox_web.log")
    else None
  }

  /**
   * `get_log_content`: the journal for "system"; the file of the log type
   * when it exists; otherwise a notice that there are no such logs. `journal`
   * is what running the journal command gives (or the error it raises) and
   * `logs` maps each existing file of the log directory to its text (or the
   * error reading it raises).
   */
  function LogContent(logType: string, journal: Result<string, string>,
                      logs: map<string, Result<string, string>>): (text: string)
    ensures logType == "system" && journal.Success? ==> text == journal.value
    ensures logType != "system" && LogFileName(logType).Some? && LogFileName(logType).value in logs
            && logs[LogFileName(logType).value].Success?
            ==> text == logs[LogFileName(logType).value].value
    ensures logType != "system" && (LogFileName(logType).None? || LogFileName(logType).value !in logs)
            ==> text == "No " + logType + " logs available"
    ensures logType == "system" && journal.Failure? ==> text == "Error reading logs: " + journal.error
    ensures logType != "system" && LogFileName(logType).Some? && LogFileName(logType).value in logs
            && logs[LogFileName(logType).value].Failure?
            ==> text == "Error reading logs: " + logs[LogFileName(logType).value].error
  {
    if logType == "system" then
      match journal
      case Success(out) => out
      case Failure(e) => "Error reading logs: " + e
    else
      var name := LogFileName(logType);
      if name.Some? && name.value in logs then
        match logs[name.value]
        case Success(content) => content
        case Failure(e) => "Error reading logs: " + e
      else "No " + logType + " logs available"
  }
}
