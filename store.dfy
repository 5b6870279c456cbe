/**
 * The `players` table and the two upserts of `DatabaseManager`, as SQLite
 * evaluates them.
 *
 * The table maps each non-NULL `url` (a UNIQUE column) to its row; rows
 * whose `url` is NULL never conflict with one another and are kept apart,
 * in insertion order. `player_id` is a TEXT PRIMARY KEY: two rows may not
 * share a non-NULL id, and (SQLite allowing NULL in a non-INTEGER primary
 * key) any number may have none.
 *
 * Each upsert is one `INSERT ... ON CONFLICT(url) DO UPDATE` statement: the
 * `url` constraint is checked first and turns the insert into the update;
 * otherwise the row is inserted, and a clash on `player_id` makes the whole
 * statement fail. `_execute_sql` commits a statement that succeeds and
 * swallows the error of one that fails, leaving the table as it was.
 */
module Store {
  import opened Wrappers

  /** One row, every column possibly NULL. Column types are not modelled: all values are text. */
  datatype Record = Record(
    playerId: Option<string>,
    url: Option<string>,
    name: Option<string>,
    fullName: Option<string>,
    dateOfBirth: Option<string>,
    age: Option<string>,
    placeOfBirth: Option<string>,
    countryOfBirth: Option<string>,
    positions: Option<string>,
    currentClub: Option<string>,
    nationalTeam: Option<string>,
    appsCurrentClub: Option<string>,
    goalsCurrentClub: Option<string>,
    timestamp: Option<string>)

  /** Whether `players` exists, its rows with a `url` by that url, and its rows without one. */
  datatype Table = Table(created: bool, byUrl: map<string, Record>, unkeyed: seq<Record>)

  /** The errors a statement can raise here. */
  datatype SqlError = NoSuchTable | PrimaryKeyConflict

  /** The columns an upsert writes: all but `player_id` and `url`, the timestamp included. */
  predicate SameData(a: Record, b: Record) {
    && a.name == b.name && a.fullName == b.fullName && a.dateOfBirth == b.dateOfBirth
    && a.age == b.age && a.placeOfBirth == b.placeOfBirth && a.countryOfBirth == b.countryOfBirth
    && a.positions == b.positions && a.currentClub == b.currentClub && a.nationalTeam == b.nationalTeam
    && a.appsCurrentClub == b.appsCurrentClub && a.goalsCurrentClub == b.goalsCurrentClub
    && a.timestamp == b.timestamp
  }

  /** Some row of `t` has primary key `id`. */
  predicate IdInUse(t: Table, id: string) {
    || (exists u :: u in t.byUrl && t.byUrl[u].playerId == Some(id))
    || (exists i :: 0 <= i < |t.unkeyed| && t.unkeyed[i].playerId == Some(id))
  }

  /** Two rows do not share a primary key (NULL never clashes). */
  predicate DistinctIds(a: Record, b: Record) {
    a.playerId.None? || a.playerId != b.playerId
  }

  /**
   * What the schema guarantees: a row is filed under its own url, rows
   * without a url have none, and no two rows share a non-NULL `player_id`.
   */
  predicate Valid(t: Table) {
    && (forall u :: u in t.byUrl ==> t.byUrl[u].url == Some(u))
    && (forall i :: 0 <= i < |t.unkeyed| ==> t.unkeyed[i].url.None?)
    && (forall u, v :: u in t.byUrl && v in t.byUrl && u != v ==> DistinctIds(t.byUrl[u], t.byUrl[v]))
    && (forall u, i :: u in t.byUrl && 0 <= i < |t.unkeyed| ==> DistinctIds(t.byUrl[u], t.unkeyed[i]))
    && (forall i, j :: 0 <= i < |t.unkeyed| && 0 <= j < |t.unkeyed| && i != j ==>
          DistinctIds(t.unkeyed[i], t.unkeyed[j]))
  }

  // ---------------------------------------------------------------------
  // Statements
  // ---------------------------------------------------------------------

  /** `CREATE TABLE IF NOT EXISTS players (...)`: creates an empty table, or leaves an existing one alone. */
  function CreateTable(t: Table): (r: Table)
    ensures r.created
    ensures t.created ==> r == t
    ensures !t.created ==> r.byUrl == t.byUrl && r.unkeyed == t.unkeyed
  {
    t.(created := true)
  }

  /** The insert half of an upsert, for a row whose url has no row yet. */
  function Insert(t: Table, d: Record): Result<Table, SqlError>
    requires d.url.None? || d.url.value !in t.byUrl
  {
    if d.playerId.Some? && IdInUse(t, d.playerId.value) then Err(PrimaryKeyConflict)
    else if d.url.Some? then Ok(t.(byUrl := t.byUrl[d.url.value := d]))
    else Ok(t.(unkeyed := t.unkeyed + [d]))
  }

  /** The seed update: `col = excluded.col` for every column but `player_id` and `url`. */
  function Overwrite(stored: Record, incoming: Record): (r: Record)
    ensures r.playerId == stored.playerId && r.url == stored.url && SameData(r, incoming)
  {
    incoming.(playerId := stored.playerId, url := stored.url)
  }

  /**
   * One refresh `CASE`, as written:
   * `CASE WHEN excluded.c IS NOT c OR (c IS NULL AND excluded.c IS NOT NULL) THEN excluded.c ELSE c END`.
   * `IS NOT` is SQLite's NULL-safe inequality, so the `ELSE` branch is only
   * reached when the two values are already equal: the incoming value always
   * wins, NULL included.
   */
  function RefreshField(stored: Option<string>, incoming: Option<string>): (r: Option<string>)
    ensures r == incoming
  {
    if incoming != stored || (stored.None? && incoming.Some?) then incoming else stored
  }

  /** The refresh update: a `CASE` per column, `scraping_timestamp = excluded.scraping_timestamp`. */
  function Refreshed(stored: Record, incoming: Record): Record {
    stored.(
      name := RefreshField(stored.name, incoming.name),
      fullName := RefreshField(stored.fullName, incoming.fullName),
      dateOfBirth := RefreshField(stored.dateOfBirth, incoming.dateOfBirth),
      age := RefreshField(stored.age, incoming.age),
      placeOfBirth := RefreshField(stored.placeOfBirth, incoming.placeOfBirth),
      countryOfBirth := RefreshField(stored.countryOfBirth, incoming.countryOfBirth),
      positions := RefreshField(stored.positions, incoming.positions),
      currentClub := RefreshField(stored.currentClub, incoming.currentClub),
      nationalTeam := RefreshField(stored.nationalTeam, incoming.nationalTeam),
      appsCurrentClub := RefreshField(stored.appsCurrentClub, incoming.appsCurrentClub),
      goalsCurrentClub := RefreshField(stored.goalsCurrentClub, incoming.goalsCurrentClub),
      timestamp := incoming.timestamp)
  }

  /** The seed statement of `insert_or_update_table_from_csv`. */
  function SeedStatement(t: Table, d: Record): (r: Result<Table, SqlError>)
    ensures r.Err? <==> !t.created || (d.playerId.Some? && IdInUse(t, d.playerId.value) && (d.url.None? || d.url.value !in t.byUrl))
    ensures r.Ok? && d.url.Some? ==> d.url.value in r.value.byUrl
  {
    if !t.created then Err(NoSuchTable)
    else if d.url.Some? && d.url.value in t.byUrl then
      Ok(t.(byUrl := t.byUrl[d.url.value := Overwrite(t.byUrl[d.url.value], d)]))
    else Insert(t, d)
  }

  /**
   * The refresh statement of `insert_or_update_table_from_scraper`. Its
   * `WHERE excluded.url IS NOT NULL` always holds on the update path, since
   * only a non-NULL url can conflict.
   */
  function RefreshStatement(t: Table, d: Record): (r: Result<Table, SqlError>)
    ensures r.Err? <==> !t.created || (d.playerId.Some? && IdInUse(t, d.playerId.value) && (d.url.None? || d.url.value !in t.byUrl))
    ensures r.Ok? && d.url.Some? ==> d.url.value in r.value.byUrl
  {
    if !t.created then Err(NoSuchTable)
    else if d.url.Some? && d.url.value in t.byUrl then
      Ok(t.(byUrl := t.byUrl[d.url.value := Refreshed(t.byUrl[d.url.value], d)]))
    else Insert(t, d)
  }

  /** `_execute_sql`: a statement that succeeds is committed, one that fails leaves the table unchanged. */
  function ExecuteSql(t: Table, outcome: Result<Table, SqlError>): (r: Table)
    ensures outcome.Err? ==> r == t
    ensures outcome.Ok? ==> r == outcome.value
  {
    match outcome
    case Ok(t') => t'
    case Err(_) => t
  }

  function Seed(t: Table, d: Record): Table {
    ExecuteSql(t, SeedStatement(t, d))
  }

  function Refresh(t: Table, d: Record): Table {
    ExecuteSql(t, RefreshStatement(t, d))
  }

  // ---------------------------------------------------------------------
  // Choosing the player id of a refresh
  // ---------------------------------------------------------------------

  /**
   * `_get_player_id_by_url`: the stored `player_id` of the row with this url.
   * `url = NULL` matches nothing, and a missing table is an error that is
   * swallowed, giving `None` as well.
   */
  function LookupId(t: Table, url: Option<string>): (r: Option<string>)
    ensures url.None? || !t.created ==> r.None?
    ensures t.created && url.Some? && url.value in t.byUrl ==> r == t.byUrl[url.value].playerId
  {
    if !t.created || url.None? || url.value !in t.byUrl then None else t.byUrl[url.value].playerId
  }

  /** Python truthiness of an optional string: present and non-empty. */
  predicate Truthy(v: Option<string>) { v.Some? && v.value != "" }

  /**
   * The id `insert_or_update_table_from_scraper` writes into the caller's
   * dictionary: the stored one if it is truthy, else the caller's if it is
   * truthy, else the fresh `uuid4()` value.
   */
  function ChooseId(t: Table, d: Record, minted: string): (r: string)
    ensures Some(r) == LookupId(t, d.url) || Some(r) == d.playerId || r == minted
    ensures Truthy(LookupId(t, d.url)) ==> Some(r) == LookupId(t, d.url)
    ensures !Truthy(LookupId(t, d.url)) && Truthy(d.playerId) ==> Some(r) == d.playerId
    ensures !Truthy(LookupId(t, d.url)) && !Truthy(d.playerId) ==> r == minted
    ensures minted != "" ==> r != ""
  {
    var existing := LookupId(t, d.url);
    if Truthy(existing) then existing.value
    else if Truthy(d.playerId) then d.playerId.value
    else minted
  }

  /** The whole refresh call: choose the id, write it into the record, run the statement. */
  function RefreshUpsert(t: Table, d: Record, minted: string): (r: Table)
    ensures r.created == t.created
    ensures t.created && d.url.Some? && d.url.value in t.byUrl ==>
      r.byUrl.Keys == t.byUrl.Keys && r.byUrl[d.url.value].playerId == t.byUrl[d.url.value].playerId
  {
    Refresh(t, d.(playerId := Some(ChooseId(t, d, minted))))
  }

  // ---------------------------------------------------------------------
  // Properties
  // ---------------------------------------------------------------------

  /**
   * The refresh statement is the seed statement: since every `CASE` yields
   * the incoming value, both upserts leave exactly the same table.
   */
  lemma RefreshIsSeed(t: Table, d: Record)
    ensures RefreshStatement(t, d) == SeedStatement(t, d)
    ensures Refresh(t, d) == Seed(t, d)
  {
    if t.created && d.url.Some? && d.url.value in t.byUrl {
      var stored := t.byUrl[d.url.value];
      assert Refreshed(stored, d) == Overwrite(stored, d);
    }
  }

  /**
   * Seeding a url that has a row replaces every written column with the
   * incoming value, NULLs included, keeps the row's `player_id` and `url`,
   * and leaves every other row alone.
   */
  lemma SeedReplacesRow(t: Table, d: Record)
    requires t.created && d.url.Some? && d.url.value in t.byUrl
    ensures var r := Seed(t, d); var u := d.url.value;
      && u in r.byUrl && SameData(r.byUrl[u], d)
      && r.byUrl[u].playerId == t.byUrl[u].playerId && r.byUrl[u].url == t.byUrl[u].url
      && r.unkeyed == t.unkeyed
      && forall v :: v != u ==> (v in r.byUrl <==> v in t.byUrl) && (v in t.byUrl ==> r.byUrl[v] == t.byUrl[v])
  {
  }

  /** After inserting `d`, its primary key is in use. */
  lemma InsertedIdInUse(t: Table, d: Record)
    requires d.url.None? || d.url.value !in t.byUrl
    requires Insert(t, d).Ok? && d.playerId.Some?
    ensures IdInUse(Insert(t, d).value, d.playerId.value)
  {
    var r := Insert(t, d).value;
    if d.url.Some? {
      assert r.byUrl[d.url.value].playerId == d.playerId;
    } else {
      assert r.unkeyed[|t.unkeyed|] == d;
    }
  }

  /**
   * Seeding the same record twice leaves the same table as seeding it once,
   * unless it has neither a url nor an id: such a row conflicts with nothing
   * and is added again.
   */
  lemma SeedIdempotent(t: Table, d: Record)
    requires d.url.Some? || d.playerId.Some?
    ensures Seed(Seed(t, d), d) == Seed(t, d)
  {
    var once := Seed(t, d);
    if t.created && !(d.url.Some? && d.url.value in t.byUrl) && Insert(t, d).Ok? {
      if d.url.None? {
        InsertedIdInUse(t, d);
      }
    }
  }

  /** A row without a url is never merged: each seed or refresh of it inserts a new row, or fails. */
  lemma NullUrlNeverMerges(t: Table, d: Record)
    requires t.created && d.url.None?
    requires d.playerId.None? || !IdInUse(t, d.playerId.value)
    ensures Seed(t, d) == Refresh(t, d) == t.(unkeyed := t.unkeyed + [d])
  {
    RefreshIsSeed(t, d);
  }

  /**
   * An insert whose `player_id` is already taken fails as a whole; the error
   * is swallowed and the table is unchanged, in either mode.
   */
  lemma PrimaryKeyConflictSwallowed(t: Table, d: Record)
    requires d.url.None? || d.url.value !in t.byUrl
    requires d.playerId.Some? && IdInUse(t, d.playerId.value)
    ensures Seed(t, d) == t && Refresh(t, d) == t
  {
    RefreshIsSeed(t, d);
  }

  /** Without the table every upsert fails and changes nothing. */
  lemma MissingTableUnchanged(t: Table, d: Record, minted: string)
    requires !t.created
    ensures Seed(t, d) == t && RefreshUpsert(t, d, minted) == t
  {
  }

  /** A row whose id is not in use shares its id with no row of the table. */
  lemma FreeIdDistinct(t: Table, d: Record)
    requires d.playerId.None? || !IdInUse(t, d.playerId.value)
    ensures forall u :: u in t.byUrl ==> DistinctIds(d, t.byUrl[u]) && DistinctIds(t.byUrl[u], d)
    ensures forall i :: 0 <= i < |t.unkeyed| ==> DistinctIds(d, t.unkeyed[i]) && DistinctIds(t.unkeyed[i], d)
  {
  }

  /** Inserting a row whose id is free keeps the schema's guarantees. */
  lemma InsertKeepsValid(t: Table, d: Record)
    requires Valid(t) && (d.url.None? || d.url.value !in t.byUrl)
    requires Insert(t, d).Ok?
    ensures Valid(Insert(t, d).value)
  {
    var r := Insert(t, d).value;
    FreeIdDistinct(t, d);
    if d.url.Some? {
      var k := d.url.value;
      assert r.unkeyed == t.unkeyed;
      forall u, v | u in r.byUrl && v in r.byUrl && u != v
        ensures DistinctIds(r.byUrl[u], r.byUrl[v])
      {
        if u != k && v != k {
          assert r.byUrl[u] == t.byUrl[u] && r.byUrl[v] == t.byUrl[v];
        }
      }
    } else {
      var n := |t.unkeyed|;
      assert r.byUrl == t.byUrl && r.unkeyed[n] == d;
      forall u, i | u in r.byUrl && 0 <= i < |r.unkeyed|
        ensures DistinctIds(r.byUrl[u], r.unkeyed[i])
      {
        if i < n { assert r.unkeyed[i] == t.unkeyed[i]; }
      }
      forall i, j | 0 <= i < |r.unkeyed| && 0 <= j < |r.unkeyed| && i != j
        ensures DistinctIds(r.unkeyed[i], r.unkeyed[j])
      {
        if i < n { assert r.unkeyed[i] == t.unkeyed[i]; }
        if j < n { assert r.unkeyed[j] == t.unkeyed[j]; }
      }
    }
  }

  /** Seeding keeps the schema's guarantees: one row per url, distinct primary keys. */
  lemma SeedKeepsValid(t: Table, d: Record)
    requires Valid(t)
    ensures Valid(Seed(t, d))
  {
    if t.created && d.url.Some? && d.url.value in t.byUrl {
      var u := d.url.value;
      var r := Seed(t, d);
      forall v, w | v in r.byUrl && w in r.byUrl && v != w
        ensures DistinctIds(r.byUrl[v], r.byUrl[w])
      {
        assert r.byUrl[v].playerId == t.byUrl[v].playerId;
        assert r.byUrl[w].playerId == t.byUrl[w].playerId;
      }
      forall v, i | v in r.byUrl && 0 <= i < |r.unkeyed|
        ensures DistinctIds(r.byUrl[v], r.unkeyed[i])
      {
        assert r.byUrl[v].playerId == t.byUrl[v].playerId;
      }
    } else if t.created && Insert(t, d).Ok? {
      InsertKeepsValid(t, d);
    }
  }

  /** Refreshing keeps the schema's guarantees, whatever id was chosen. */
  lemma RefreshKeepsValid(t: Table, d: Record, minted: string)
    requires Valid(t)
    ensures Valid(RefreshUpsert(t, d, minted))
  {
    var d' := d.(playerId := Some(ChooseId(t, d, minted)));
    RefreshIsSeed(t, d');
    SeedKeepsValid(t, d');
  }

  /**
   * A refresh of a url whose row has a truthy id reuses that id: the id
   * handed back is the stored one, and the row keeps it.
   */
  lemma RefreshReusesStoredId(t: Table, d: Record, minted: string)
    requires t.created && d.url.Some? && d.url.value in t.byUrl && Truthy(t.byUrl[d.url.value].playerId)
    ensures Some(ChooseId(t, d, minted)) == t.byUrl[d.url.value].playerId
    ensures RefreshUpsert(t, d, minted).byUrl[d.url.value].playerId == t.byUrl[d.url.value].playerId
  {
    RefreshIsSeed(t, d.(playerId := Some(ChooseId(t, d, minted))));
  }

  /**
   * A stored id that is empty or NULL is falsy: the caller is handed a fresh
   * (or its own) id, while the row keeps the empty one, since the update
   * does not touch `player_id`.
   */
  lemma FalsyStoredIdNotReused(t: Table, d: Record, minted: string)
    requires t.created && d.url.Some? && d.url.value in t.byUrl && !Truthy(t.byUrl[d.url.value].playerId)
    requires !Truthy(d.playerId) && minted != ""
    ensures ChooseId(t, d, minted) == minted
    ensures RefreshUpsert(t, d, minted).byUrl[d.url.value].playerId != Some(minted)
  {
    RefreshIsSeed(t, d.(playerId := Some(minted)));
  }

  /**
   * Refreshing the same record twice leaves the same table as refreshing it
   * once, when the record has a url and the id minted the first time is a
   * new, non-empty one (as `uuid4` promises); the second call may mint
   * another id, which no row ends up holding.
   */
  lemma RefreshIdempotent(t: Table, d: Record, minted1: string, minted2: string)
    requires d.url.Some? && minted1 != "" && !IdInUse(t, minted1)
    ensures RefreshUpsert(RefreshUpsert(t, d, minted1), d, minted2) == RefreshUpsert(t, d, minted1)
  {
    var u := d.url.value;
    var id1 := ChooseId(t, d, minted1);
    var d1 := d.(playerId := Some(id1));
    var t1 := RefreshUpsert(t, d, minted1);
    RefreshIsSeed(t, d1);
    if t.created {
      if u in t.byUrl {
        var id2 := ChooseId(t1, d, minted2);
        var d2 := d.(playerId := Some(id2));
        RefreshIsSeed(t1, d2);
        assert Overwrite(t1.byUrl[u], d2) == t1.byUrl[u];
      } else if Insert(t, d1).Ok? {
        assert t1.byUrl[u] == d1;
        assert Truthy(Some(id1));
        assert ChooseId(t1, d, minted2) == id1;
        RefreshIsSeed(t1, d1);
      } else {
        assert t1 == t;
        assert ChooseId(t1, d, minted2) == id1;
      }
    }
  }

  // ---------------------------------------------------------------------
  // The refresh the `CASE` expressions were evidently meant to be
  // ---------------------------------------------------------------------

  /** The stored value wins when the incoming one is NULL: `COALESCE(excluded.c, c)`. */
  function IntendedRefreshField(stored: Option<string>, incoming: Option<string>): (r: Option<string>)
    ensures incoming.Some? ==> r == incoming
    ensures incoming.None? ==> r == stored
  {
    incoming.Or(stored)
  }

  /** The refresh update with the intended `CASE`s. */
  function IntendedRefreshed(stored: Record, incoming: Record): Record {
    stored.(
      name := IntendedRefreshField(stored.name, incoming.name),
      fullName := IntendedRefreshField(stored.fullName, incoming.fullName),
      dateOfBirth := IntendedRefreshField(stored.dateOfBirth, incoming.dateOfBirth),
      age := IntendedRefreshField(stored.age, incoming.age),
      placeOfBirth := IntendedRefreshField(stored.placeOfBirth, incoming.placeOfBirth),
      countryOfBirth := IntendedRefreshField(stored.countryOfBirth, incoming.countryOfBirth),
      positions := IntendedRefreshField(stored.positions, incoming.positions),
      currentClub := IntendedRefreshField(stored.currentClub, incoming.currentClub),
      nationalTeam := IntendedRefreshField(stored.nationalTeam, incoming.nationalTeam),
      appsCurrentClub := IntendedRefreshField(stored.appsCurrentClub, incoming.appsCurrentClub),
      goalsCurrentClub := IntendedRefreshField(stored.goalsCurrentClub, incoming.goalsCurrentClub),
      timestamp := incoming.timestamp)
  }

  /**
   * As written, a refresh whose scraped record lacks a value erases the one
   * the seed import stored: a stored name meets an incoming NULL and the
   * row's name becomes NULL.
   */
  lemma RefreshErasesStoredValue(stored: Record, incoming: Record)
    requires stored.name == Some("Giorgos Karagounis") && incoming.name.None?
    ensures Refreshed(stored, incoming).name.None?
    ensures IntendedRefreshed(stored, incoming).name == stored.name
  {
  }

  /** One column after a refresh: the incoming value when there is one, the stored one otherwise. */
  predicate MergedColumn(stored: Option<string>, incoming: Option<string>, r: Option<string>) {
    (incoming.Some? ==> r == incoming) && (incoming.None? ==> r == stored)
  }

  /** Every one of the eleven data columns of `r` is merged from `stored` and `incoming`. */
  predicate MergedFrom(stored: Record, incoming: Record, r: Record) {
    && MergedColumn(stored.name, incoming.name, r.name)
    && MergedColumn(stored.fullName, incoming.fullName, r.fullName)
    && MergedColumn(stored.dateOfBirth, incoming.dateOfBirth, r.dateOfBirth)
    && MergedColumn(stored.age, incoming.age, r.age)
    && MergedColumn(stored.placeOfBirth, incoming.placeOfBirth, r.placeOfBirth)
    && MergedColumn(stored.countryOfBirth, incoming.countryOfBirth, r.countryOfBirth)
    && MergedColumn(stored.positions, incoming.positions, r.positions)
    && MergedColumn(stored.currentClub, incoming.currentClub, r.currentClub)
    && MergedColumn(stored.nationalTeam, incoming.nationalTeam, r.nationalTeam)
    && MergedColumn(stored.appsCurrentClub, incoming.appsCurrentClub, r.appsCurrentClub)
    && MergedColumn(stored.goalsCurrentClub, incoming.goalsCurrentClub, r.goalsCurrentClub)
  }

  /** No data column that holds a value in `stored` is NULL in `r`. */
  predicate NothingErased(stored: Record, r: Record) {
    && (stored.name.Some? ==> r.name.Some?)
    && (stored.fullName.Some? ==> r.fullName.Some?)
    && (stored.dateOfBirth.Some? ==> r.dateOfBirth.Some?)
    && (stored.age.Some? ==> r.age.Some?)
    && (stored.placeOfBirth.Some? ==> r.placeOfBirth.Some?)
    && (stored.countryOfBirth.Some? ==> r.countryOfBirth.Some?)
    && (stored.positions.Some? ==> r.positions.Some?)
    && (stored.currentClub.Some? ==> r.currentClub.Some?)
    && (stored.nationalTeam.Some? ==> r.nationalTeam.Some?)
    && (stored.appsCurrentClub.Some? ==> r.appsCurrentClub.Some?)
    && (stored.goalsCurrentClub.Some? ==> r.goalsCurrentClub.Some?)
  }

  /** A merged row erases nothing the stored row held. */
  lemma MergedErasesNothing(stored: Record, incoming: Record, r: Record)
    requires MergedFrom(stored, incoming, r)
    ensures NothingErased(stored, r)
  {
  }

  /**
   * The intended refresh never loses a stored value: every column holds the
   * incoming value when there is one and keeps the stored one otherwise, and
   * refreshing twice with the same record changes nothing more.
   */
  lemma IntendedRefreshKeepsStored(stored: Record, incoming: Record)
    ensures var r := IntendedRefreshed(stored, incoming);
      && MergedFrom(stored, incoming, r) && NothingErased(stored, r)
      && r.timestamp == incoming.timestamp
      && r.playerId == stored.playerId && r.url == stored.url
      && IntendedRefreshed(r, incoming) == r
  {
    var r := IntendedRefreshed(stored, incoming);
    IntendedRefreshMerges(stored, incoming);
    MergedErasesNothing(stored, incoming, r);
    IntendedRefreshIdempotent(stored, incoming);
  }

  /** Column by column, the intended refresh is the merge `MergedFrom` describes. */
  lemma IntendedRefreshMerges(stored: Record, incoming: Record)
    ensures MergedFrom(stored, incoming, IntendedRefreshed(stored, incoming))
  {
  }

  /** Refreshing a second time with the same record changes nothing. */
  lemma IntendedRefreshIdempotent(stored: Record, incoming: Record)
    ensures var r := IntendedRefreshed(stored, incoming); IntendedRefreshed(r, incoming) == r
  {
  }

}
