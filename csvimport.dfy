/**
 * `import_csv_to_db`: creates the table, then maps each row of the seed CSV
 * to a record and seeds it, in file order. A row that raises ends the run
 * with exit status 1; the rows seeded before it stay committed.
 *
 * `mint(i)` stands for the `uuid4()` value computed for row `i`.
 */
module CsvImport {
  import opened Wrappers
  import opened Text
  import opened Store
  import opened Database
  import opened CsvRows

  /** `row.get(col) if row.get(col, "").strip().isdigit() else None`: digits only, kept unstripped. */
  function DigitField(row: CsvRow, col: string): (r: Result<Option<string>, Abort>)
    ensures r.Err? <==> HoldsNone(row, col)
    ensures r.Ok? && r.value.Some? ==> r.value == Get(row, col) && Strip(r.value.value) != [] && AllDigits(Strip(r.value.value))
    ensures r.Ok? && r.value.None? ==> Get(row, col).None? || Strip(Get(row, col).value) == [] || !AllDigits(Strip(Get(row, col).value))
  {
    if col !in row then Ok(None)
    else match row[col]
      case None => Err(StripOnNone(col))
      case Some(v) => if Strip(v) != [] && AllDigits(Strip(v)) then Ok(Some(v)) else Ok(None)
  }

  /** The `player_data` dictionary built from one seed row. */
  function CsvRecord(row: CsvRow, minted: string): (r: Result<Record, Abort>)
    ensures r.Ok? ==> r.value.appsCurrentClub.None? && r.value.goalsCurrentClub.None? && r.value.timestamp.None?
    ensures r.Ok? && "PlayerID" !in row ==> r.value.playerId == Some(minted)
  {
    var name :- TextField(row, "Name");
    var fullName :- TextField(row, "Full name");
    var dateOfBirth :- TextField(row, "Date of birth");
    var age :- DigitField(row, "Age");
    var placeOfBirth :- TextField(row, "City of birth");
    var countryOfBirth :- TextField(row, "Country of birth");
    var positions :- TextField(row, "Position");
    var currentClub :- TextField(row, "Current club");
    var nationalTeam :- TextField(row, "National_team");
    var playerId := if "PlayerID" in row then row["PlayerID"] else Some(minted);
    Ok(Record(playerId, Get(row, "URL"), name, fullName, dateOfBirth, age, placeOfBirth, countryOfBirth,
              positions, currentClub, nationalTeam, None, None, None))
  }

  /**
   * The column renaming: each text column lands, blank-normalised and
   * otherwise unstripped, in its field; the URL is copied; the id is the
   * PlayerID column whenever there is one (even empty), else the minted one;
   * appearances, goals and the timestamp are always NULL.
   */
  lemma CsvColumnsRenamed(row: CsvRow, minted: string)
    requires CsvRecord(row, minted).Ok?
    ensures var r := CsvRecord(row, minted).value;
      && r.name == Normalised(Get(row, "Name"))
      && r.fullName == Normalised(Get(row, "Full name"))
      && r.dateOfBirth == Normalised(Get(row, "Date of birth"))
      && r.placeOfBirth == Normalised(Get(row, "City of birth"))
      && r.countryOfBirth == Normalised(Get(row, "Country of birth"))
      && r.positions == Normalised(Get(row, "Position"))
      && r.currentClub == Normalised(Get(row, "Current club"))
      && r.nationalTeam == Normalised(Get(row, "National_team"))
      && r.url == Get(row, "URL")
      && r.playerId == (if "PlayerID" in row then row["PlayerID"] else Some(minted))
      && r.appsCurrentClub.None? && r.goalsCurrentClub.None? && r.timestamp.None?
  {
    assert TextField(row, "Name").Ok?;
    assert TextField(row, "Full name").Ok?;
    assert TextField(row, "Date of birth").Ok?;
    assert DigitField(row, "Age").Ok?;
    assert TextField(row, "City of birth").Ok?;
    assert TextField(row, "Country of birth").Ok?;
    assert TextField(row, "Position").Ok?;
    assert TextField(row, "Current club").Ok?;
    assert TextField(row, "National_team").Ok?;
  }

  /** The age is kept, unstripped, exactly when its stripped text is a non-empty run of digits. */
  lemma CsvAgeDigitChecked(row: CsvRow, minted: string)
    requires CsvRecord(row, minted).Ok?
    ensures var a := CsvRecord(row, minted).value.age;
      && (a.Some? ==> a == Get(row, "Age") && AllDigits(Strip(a.value)) && Strip(a.value) != [])
      && (a.None? ==> Get(row, "Age").None? || !AllDigits(Strip(Get(row, "Age").value)) || Strip(Get(row, "Age").value) == [])
  {
    assert TextField(row, "Name").Ok?;
    assert TextField(row, "Full name").Ok?;
    assert TextField(row, "Date of birth").Ok?;
    assert DigitField(row, "Age").Ok?;
    assert TextField(row, "City of birth").Ok?;
    assert TextField(row, "Country of birth").Ok?;
    assert TextField(row, "Position").Ok?;
    assert TextField(row, "Current club").Ok?;
    assert TextField(row, "National_team").Ok?;
  }

  /** A seed row raises exactly when one of the nine normalised columns holds `None`. */
  lemma CsvRowRaisesIff(row: CsvRow, minted: string)
    ensures CsvRecord(row, minted).Err? <==>
      || HoldsNone(row, "Name") || HoldsNone(row, "Full name") || HoldsNone(row, "Date of birth")
      || HoldsNone(row, "Age") || HoldsNone(row, "City of birth") || HoldsNone(row, "Country of birth")
      || HoldsNone(row, "Position") || HoldsNone(row, "Current club") || HoldsNone(row, "National_team")
  {
  }

  /** The loop from row `i` on: seed each row in turn, stop at the first that raises. */
  function SeedRows(t: Table, rows: seq<CsvRow>, mint: nat -> string, i: nat): (r: (Table, ImportOutcome))
    requires i <= |rows|
    ensures r.1.Aborted? ==> i <= r.1.at < |rows| && CsvRecord(rows[r.1.at], mint(r.1.at)).Err?
    ensures r.1.Aborted? ==> forall j :: i <= j < r.1.at ==> CsvRecord(rows[j], mint(j)).Ok?
    ensures r.1.Completed? ==> forall j :: i <= j < |rows| ==> CsvRecord(rows[j], mint(j)).Ok?
    decreases |rows| - i
  {
    if i == |rows| then (t, Completed)
    else match CsvRecord(rows[i], mint(i))
      case Err(_) => (t, Aborted(i))
      case Ok(r) => SeedRows(Seed(t, r), rows, mint, i + 1)
  }

  /**
   * A run that stops at row `k` leaves the table the rows before it make:
   * those rows stay committed, nothing of row `k` or later is written.
   */
  lemma {:induction false} SeedRowsStopsAtFirstBadRow(t: Table, rows: seq<CsvRow>, mint: nat -> string, i: nat, k: nat)
    requires i <= k < |rows| && CsvRecord(rows[k], mint(k)).Err?
    requires forall j :: i <= j < k ==> CsvRecord(rows[j], mint(j)).Ok?
    ensures SeedRows(t, rows, mint, i) == (SeedRows(t, rows[..k], mint, i).0, Aborted(k))
    decreases k - i
  {
    if i < k {
      assert rows[..k][i] == rows[i];
      var r := CsvRecord(rows[i], mint(i)).value;
      SeedRowsStopsAtFirstBadRow(Seed(t, r), rows, mint, i + 1, k);
    }
  }

  /** `import_csv_to_db` on the database `existing` and the rows of the seed file. */
  method ImportCsvToDb(existing: Table, rows: seq<CsvRow>, mint: nat -> string) returns (final: Table, outcome: ImportOutcome)
    ensures (final, outcome) == SeedRows(CreateTable(existing), rows, mint, 0)
    ensures final.created
    ensures Valid(existing) ==> Valid(final)
  {
    var db := new DatabaseManager(existing);
    db.CreateTable();
    for i := 0 to |rows|
      invariant SeedRows(db.State(), rows, mint, i) == SeedRows(CreateTable(existing), rows, mint, 0)
      invariant db.State().created
      invariant Valid(existing) ==> Valid(db.State())
    {
      var record := CsvRecord(rows[i], mint(i));
      if record.Err? {
        return db.State(), Aborted(i);
      }
      db.InsertOrUpdateTableFromCsv(record.value);
    }
    return db.State(), Completed;
  }
}
