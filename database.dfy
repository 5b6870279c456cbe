/**
 * `DatabaseManager`: the connection it holds stands for the database it is
 * connected to, kept here as three fields: whether the `players` table
 * exists, its rows that have a url (by url) and its rows that have none.
 * Each method runs its statement against them as `Store` describes.
 */
module Database {
  import opened Wrappers
  import opened Store

  class DatabaseManager {
    var created: bool
    var byUrl: map<string, Record>
    var unkeyed: seq<Record>

    /** The database as a value. */
    function State(): Table
      reads this
    {
      Table(created, byUrl, unkeyed)
    }

    /** `DatabaseManager(db_path)`: connects to the database already at that path. */
    constructor(existing: Table)
      ensures State() == existing
    {
      created := existing.created;
      byUrl := existing.byUrl;
      unkeyed := existing.unkeyed;
    }

    /** `_execute_sql`: commits the statement's effect, or swallows its error and changes nothing. */
    method ExecuteSql(outcome: Result<Table, SqlError>)
      modifies this
      ensures State() == Store.ExecuteSql(old(State()), outcome)
    {
      if outcome.Ok? {
        created := outcome.value.created;
        byUrl := outcome.value.byUrl;
        unkeyed := outcome.value.unkeyed;
      }
    }

    /** `create_table`: creates `players` if it does not exist; the rows are untouched. */
    method CreateTable()
      modifies this
      ensures State() == Store.CreateTable(old(State()))
      ensures Valid(old(State())) ==> Valid(State())
    {
      ExecuteSql(Ok(Store.CreateTable(State())));
    }

    /**
     * `_get_player_id_by_url`: the `player_id` of the row with this url, or
     * `None` when there is no such row, when the url is `None`, or when the
     * query fails because the table does not exist.
     */
    method GetPlayerIdByUrl(url: Option<string>) returns (id: Option<string>)
      ensures id == LookupId(State(), url)
    {
      if !created || url.None? {
        return None;
      }
      if url.value in byUrl {
        return byUrl[url.value].playerId;
      }
      return None;
    }

    /**
     * `insert_or_update_table_from_csv`: the seed upsert. Keeps the schema's
     * guarantees: one row per url, distinct primary keys.
     */
    method InsertOrUpdateTableFromCsv(d: Record)
      modifies this
      ensures State() == Seed(old(State()), d)
      ensures Valid(old(State())) ==> Valid(State())
    {
      if Valid(State()) {
        SeedKeepsValid(State(), d);
      }
      ExecuteSql(SeedStatement(State(), d));
    }

    /**
     * `insert_or_update_table_from_scraper`: chooses the `player_id` (the
     * stored one if truthy, else the caller's if truthy, else `minted`, the
     * `uuid4()` value), writes it into the caller's record, which is
     * returned, and runs the refresh upsert with it.
     */
    method InsertOrUpdateTableFromScraper(d: Record, minted: string) returns (written: Record)
      modifies this
      ensures written == d.(playerId := Some(ChooseId(old(State()), d, minted)))
      ensures State() == Refresh(old(State()), written)
      ensures State() == Seed(old(State()), written)
      ensures Valid(old(State())) ==> Valid(State())
    {
      written := d;
      var existing := GetPlayerIdByUrl(d.url);
      if Truthy(existing) {
        written := written.(playerId := existing);
      } else if !Truthy(d.playerId) {
        written := written.(playerId := Some(minted));
      }
      RefreshIsSeed(State(), written);
      if Valid(State()) {
        RefreshKeepsValid(State(), d, minted);
      }
      ExecuteSql(RefreshStatement(State(), written));
    }
  }
}
