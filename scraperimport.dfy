/**
 * `import_scraper_to_db`: maps each row of the scraper's output CSV to a
 * record and runs the refresh upsert on it, in file order. It does not
 * create the table. A row that raises ends the run with exit status 1; the
 * rows written before it stay committed.
 *
 * `mint(i)` stands for the `uuid4()` value the upsert of row `i` would mint.
 */
module ScraperImport {
  import opened Wrappers
  import opened Text
  import opened Store
  import opened Database
  import opened CsvRows

  /** The `player_data` dictionary built from one scraper row; it has no `player_id` entry. */
  function ScraperRecord(row: CsvRow): (r: Result<Record, Abort>)
    ensures r.Ok? ==> r.value.playerId.None? && r.value.url == Get(row, "url")
  {
    var name :- TextField(row, "name");
    var fullName :- TextField(row, "full_name");
    var dateOfBirth :- TextField(row, "date_of_birth");
    var age :- TextField(row, "age");
    var placeOfBirth :- TextField(row, "place_of_birth");
    var countryOfBirth :- TextField(row, "country_of_birth");
    var positions :- TextField(row, "positions");
    var currentClub :- TextField(row, "current_club");
    var nationalTeam :- TextField(row, "national_team");
    var apps :- TextField(row, "appearances_current_club");
    var goals :- TextField(row, "goals_current_club");
    Ok(Record(None, Get(row, "url"), name, fullName, dateOfBirth, age, placeOfBirth, countryOfBirth,
              positions, currentClub, nationalTeam, apps, goals, Get(row, "scraping_timestamp")))
  }

  /**
   * Each of the eleven text columns lands blank-normalised in the field of
   * the same name (the age is not checked for digits); the url and the
   * timestamp are copied as they are; no id is carried.
   */
  lemma ScraperColumnsKept(row: CsvRow)
    requires ScraperRecord(row).Ok?
    ensures var r := ScraperRecord(row).value;
      && r.name == Normalised(Get(row, "name"))
      && r.fullName == Normalised(Get(row, "full_name"))
      && r.dateOfBirth == Normalised(Get(row, "date_of_birth"))
      && r.age == Normalised(Get(row, "age"))
      && r.placeOfBirth == Normalised(Get(row, "place_of_birth"))
      && r.countryOfBirth == Normalised(Get(row, "country_of_birth"))
      && r.positions == Normalised(Get(row, "positions"))
      && r.currentClub == Normalised(Get(row, "current_club"))
      && r.nationalTeam == Normalised(Get(row, "national_team"))
      && r.appsCurrentClub == Normalised(Get(row, "appearances_current_club"))
      && r.goalsCurrentClub == Normalised(Get(row, "goals_current_club"))
      && r.url == Get(row, "url")
      && r.timestamp == Get(row, "scraping_timestamp")
      && r.playerId.None?
  {
    assert TextField(row, "name").Ok?;
    assert TextField(row, "full_name").Ok?;
    assert TextField(row, "date_of_birth").Ok?;
    assert TextField(row, "age").Ok?;
    assert TextField(row, "place_of_birth").Ok?;
    assert TextField(row, "country_of_birth").Ok?;
    assert TextField(row, "positions").Ok?;
    assert TextField(row, "current_club").Ok?;
    assert TextField(row, "national_team").Ok?;
    assert TextField(row, "appearances_current_club").Ok?;
    assert TextField(row, "goals_current_club").Ok?;
  }

  /** A scraper row raises exactly when one of the eleven normalised columns holds `None`. */
  lemma ScraperRowRaisesIff(row: CsvRow)
    ensures ScraperRecord(row).Err? <==>
      || HoldsNone(row, "name") || HoldsNone(row, "full_name") || HoldsNone(row, "date_of_birth")
      || HoldsNone(row, "age") || HoldsNone(row, "place_of_birth") || HoldsNone(row, "country_of_birth")
      || HoldsNone(row, "positions") || HoldsNone(row, "current_club") || HoldsNone(row, "national_team")
      || HoldsNone(row, "appearances_current_club") || HoldsNone(row, "goals_current_club")
  {
  }

  /**
   * Since the row carries no id, the upsert keeps the id stored under its
   * url when that one is truthy and otherwise uses the minted one.
   */
  lemma ScraperRowIdChoice(t: Table, row: CsvRow, minted: string)
    requires ScraperRecord(row).Ok?
    ensures var id := LookupId(t, Get(row, "url"));
      ChooseId(t, ScraperRecord(row).value, minted) == if Truthy(id) then id.value else minted
  {
  }

  /** The loop from row `i` on: refresh each row in turn, stop at the first that raises. */
  function RefreshRows(t: Table, rows: seq<CsvRow>, mint: nat -> string, i: nat): (r: (Table, ImportOutcome))
    requires i <= |rows|
    ensures r.1.Aborted? ==> i <= r.1.at < |rows| && ScraperRecord(rows[r.1.at]).Err?
    ensures r.1.Aborted? ==> forall j :: i <= j < r.1.at ==> ScraperRecord(rows[j]).Ok?
    ensures r.1.Completed? ==> forall j :: i <= j < |rows| ==> ScraperRecord(rows[j]).Ok?
    decreases |rows| - i
  {
    if i == |rows| then (t, Completed)
    else match ScraperRecord(rows[i])
      case Err(_) => (t, Aborted(i))
      case Ok(r) => RefreshRows(RefreshUpsert(t, r, mint(i)), rows, mint, i + 1)
  }

  /**
   * A run that stops at row `k` leaves the table the rows before it make:
   * those rows stay committed, nothing of row `k` or later is written.
   */
  lemma {:induction false} RefreshRowsStopsAtFirstBadRow(t: Table, rows: seq<CsvRow>, mint: nat -> string, i: nat, k: nat)
    requires i <= k < |rows| && ScraperRecord(rows[k]).Err?
    requires forall j :: i <= j < k ==> ScraperRecord(rows[j]).Ok?
    ensures RefreshRows(t, rows, mint, i) == (RefreshRows(t, rows[..k], mint, i).0, Aborted(k))
    decreases k - i
  {
    if i < k {
      assert rows[..k][i] == rows[i];
      var r := ScraperRecord(rows[i]).value;
      RefreshRowsStopsAtFirstBadRow(RefreshUpsert(t, r, mint(i)), rows, mint, i + 1, k);
    }
  }

  /**
   * The importer never creates the table: on a database without one every
   * statement fails and is swallowed, so the run writes nothing.
   */
  lemma {:induction false} RefreshRowsWithoutTable(t: Table, rows: seq<CsvRow>, mint: nat -> string, i: nat)
    requires !t.created && i <= |rows|
    ensures RefreshRows(t, rows, mint, i).0 == t
    decreases |rows| - i
  {
    if i < |rows| && ScraperRecord(rows[i]).Ok? {
      var r := ScraperRecord(rows[i]).value;
      MissingTableUnchanged(t, r, mint(i));
      RefreshRowsWithoutTable(t, rows, mint, i + 1);
    }
  }

  /** `import_scraper_to_db` on the database `existing` and the rows of the scraper's output. */
  method ImportScraperToDb(existing: Table, rows: seq<CsvRow>, mint: nat -> string) returns (final: Table, outcome: ImportOutcome)
    ensures (final, outcome) == RefreshRows(existing, rows, mint, 0)
    ensures Valid(existing) ==> Valid(final)
  {
    var db := new DatabaseManager(existing);
    for i := 0 to |rows|
      invariant RefreshRows(db.State(), rows, mint, i) == RefreshRows(existing, rows, mint, 0)
      invariant Valid(existing) ==> Valid(db.State())
    {
      var record := ScraperRecord(rows[i]);
      if record.Err? {
        return db.State(), Aborted(i);
      }
      var _ := db.InsertOrUpdateTableFromScraper(record.value, mint(i));
    }
    return db.State(), Completed;
  }
}
