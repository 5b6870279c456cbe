# Wikipedia footballer scraper — a verified model of its core

This project models, in Dafny, the core of a small Python tool. The tool reads Wikipedia pages about
football players and turns each one into a player record. It then keeps those records in an SQLite
`players` table. Two importers fill that table: a seed import from a hand-made CSV file, and a refresh
import from the scraper's own CSV output.

The model covers these parts:

- **Classification**: `is_football_player` decides from the infobox text and the category boxes.
  It lives in module `Classifier`.
- **The infobox pass**: each row whose header and data cells are both present is matched against six
  labels in a fixed order. The date-of-birth row goes through the date and age normaliser. The
  place-of-birth row is split at its last comma into a place and a country. This is module `Infobox`.
- **The text fallback**: used when a page has no infobox. Three date patterns are tried in turn. After
  them come the "born in", "is a … footballer", "has represented the … national team" and "plays as a
  … for local club …" searches. Each regular expression is modelled as the search it performs:
  leftmost match, greedy groups that back off, a lazy group with a lookahead. This is module `Fallback`.
- **Dates and ages**: the parenthesised ISO form, "D Month YYYY" and "Month D, YYYY". `strptime`
  with `%d`, `%B`, `%Y`, `%m`; `strftime("%Y-%m-%d")`; the "(age N)" annotation; and the
  computed age. This is module `Dates`.
- **Text cleaning**: `clean_text` and `remove_text_in_brackets`, which are regex substitutions
  (module `Brackets`), and Python's `strip()` and `in` on strings (module `Text`).
- **Career tables**: the most recent national team is the bottom-most linked row under the
  "International career" header. The current club is the bottom-most open spell ("2017–") of the
  senior career section, with its appearances and goals. Module `History` holds the loops as methods
  proved against specification functions.
- **`scrape_player_info`**: the whole sequence, as a function and as a method proved equal to it.
  This is module `Scraper`.
- **The database**:
  - Module `Store` holds the `players` table as a value: its rows with a url, keyed by url, and its
    rows without one. It also holds the two upsert statements, with SQLite's semantics:
    - a url conflict takes the update path;
    - a `NULL` url never conflicts;
    - a primary-key clash on the insert path fails.
  - `_execute_sql` commits a statement that succeeds and swallows the error of one that fails.
    Without the table, every statement fails.
  - Class `Database.DatabaseManager` holds the connected database as fields. Its methods update
    those fields.
- **The importers**: `import_csv_to_db` (module `CsvImport`) and `import_scraper_to_db` (module
  `ScraperImport`). Each maps a row to a record with the blank-to-`None` normaliser (module
  `CsvRows`) and upserts it.
  - Rows are processed in file order.
  - A row whose column holds `None` makes `.strip()` raise. The run then stops with `sys.exit(1)`,
    and the rows already written stay committed.

Each `uuid4()` call appears as a parameter: `minted` is the value that call returns. The same holds
for `datetime.today()` (`today`) and the formatted `datetime.now()` (`timestamp`). The fetched,
parsed page is a `Page.WikiPage` value: the heading, the infobox rows, the category texts and the
page text.

Where the behaviour the tool documents differs from what the code does, the model follows the code:
- The data text of an infobox row is cleaned of `[...]` groups only, not of `(...)` groups.
- The bare date pattern is tried before the parenthesised one.
- A failed statement is swallowed; the caller is not told.
- The apps and goals figures are kept as the strings the page holds.
- A refresh erases stored values. See "## Findings".

## Model

| member | source | states |
|---|---|---|
| Text.BlankIffAllSpace | src/csv_importer.py:22 | `row.get(c, "").strip()` is false exactly when every character of the value is whitespace |
| Brackets.StripSquareGroups | src/scraper.py:77 | removing the `\[.*?\]` groups never lengthens the text |
| Brackets.PlainPrefixKept | src/scraper.py:77 | text without `[` passes through the `\[.*?\]` substitution unchanged, whatever follows it |
| Brackets.CleanTextWithoutGroups | src/scraper.py:76-77 | `clean_text` on text without `[` is plain `strip()` |
| Brackets.SquareGroupDropped | src/scraper.py:77 | a one-line `[...]` group is removed whole and the scan resumes after its `]` |
| Brackets.FootnoteRemoved | src/scraper.py:76-77 | "Name[1]": `clean_text` keeps the stripped name and drops the footnote marker |
| Brackets.CleanText | src/scraper.py:76-77 | `clean_text` never lengthens the text and leaves no whitespace at either end |
| Brackets.StripBracketGroups | src/scraper.py:71-72 | removing `\s*\[.*?\]` and `\s*\([^)]*\)` groups never lengthens the text |
| Brackets.PlainTextKept | src/scraper.py:71-72 | text without brackets that does not end in whitespace passes through unchanged, whatever follows it |
| Brackets.ParenGroupLen | src/scraper.py:71 | " (...)" with no `)` inside is a single match of the second alternative, leading space included |
| Brackets.ParenGroupDropped | src/scraper.py:71-72 | " (...)" with no `)` inside is removed entirely |
| Brackets.DisambiguatorRemoved | src/scraper.py:70-73 | "Name (footballer)": `remove_text_in_brackets` keeps the stripped name and drops the disambiguator |
| Brackets.RemoveTextInBrackets | src/scraper.py:70-73 | `remove_text_in_brackets` never lengthens the text and leaves no whitespace at either end |
| Classifier.MentionsAnyIff | src/scraper.py:238-241 | the left-to-right `any` over the keywords holds exactly when some keyword occurs in the text |
| Classifier.AnyCategoryMentionsIff | src/scraper.py:245-248 | the category test holds exactly when some lower-cased category text contains "footballers" |
| Classifier.IsFootballPlayerIff | src/scraper.py:235-251 | a page is a player's exactly when its infobox exists and its lower-cased text holds one of the five keywords, or some category mentions "footballers" |
| Classifier.KeywordCaseIgnored | src/scraper.py:237-242 | one keyword anywhere in the lower-cased infobox text makes the page a player's, whatever the categories say |
| Classifier.IsFootballPlayer | src/scraper.py:235-251 | a page with neither an infobox nor a category is never a player's |
| Page.DataCellsKeepsDataCells | src/scraper.py:220 | `find_all("td", class_="infobox-data")` keeps exactly the cells with that class |
| Player.Initial | src/scraper.py:260-275 | the first dictionary holds the URL and timestamp, the placeholder age, `dead` false and every other field `None` |
| Dates.MonthNumber | src/scraper.py:95 | `%B` accepts exactly the twelve full month names, ignoring case, and gives that month's number |
| Dates.ParseYmd | src/scraper.py:11 | `strptime(s, "%Y-%m-%d")` yields only real calendar dates (years 1 to 9999, day within its month) |
| Dates.FormatIsoParses | src/scraper.py:96 | reading back the canonical form gives the same date: `strptime(strftime(d)) == d` |
| Dates.DmyDate | src/scraper.py:91-98 | the first "D Month YYYY" match, when it parses, is a real date |
| Dates.MdyDate | src/scraper.py:101-110 | the first "Month D, YYYY" match, when it parses, is a real date |
| Dates.ExtractDateOfBirth | src/scraper.py:80-112 | any date of birth returned is ten characters long |
| Dates.IsoFormRecognised | src/scraper.py:86-88 | "(YYYY-MM-DD)" of a real date comes back exactly as written |
| Dates.DmyShape | src/scraper.py:91 | "D Month YYYY" is matched whole, with its day, month name and year as the pieces |
| Dates.DmyFormRecognised | src/scraper.py:91-98 | "D Month YYYY" of any real date yields that date's canonical form |
| Dates.MdyShape | src/scraper.py:101-103 | "Month D, YYYY" is matched whole, with its month name, day and year as the pieces |
| Dates.MdyHasNoDmy | src/scraper.py:91 | "Month D, YYYY" contains no "D Month YYYY" match, so the third form is reached |
| Dates.MdyFormRecognised | src/scraper.py:101-110 | "Month D, YYYY" of any real date yields that date's canonical form |
| Dates.DmyMatchFirstAtStart | src/scraper.py:91 | "D Month YYYY" at the start of the text is the first match of the first form, whatever follows it after a space |
| Dates.MdyNeedsComma | src/scraper.py:101-103 | text without a comma holds no "Month D, YYYY" match |
| Dates.FebruaryThirtyFirst | src/scraper.py:95-98 | "31 February" is no date in any year, so `strptime` rejects it |
| Dates.FirstDmyMatchHidesLater | src/scraper.py:91-112 | only the first "D Month YYYY" match is parsed: in "31 February 1990 or 5 May 1991" the invalid first match hides the later real date, and nothing is extracted |
| Dates.SpelledOutDate | src/scraper.py:90-112 | without an ISO marker, a date of birth is found exactly when a spelled-out date parses; the result is its canonical form and reads back as that date |
| Dates.ImpossibleMarkerKept | src/scraper.py:86-88 | "(1996-13-40)" is returned as the date of birth although no such date exists |
| Dates.CalculateAgeFromDob | src/scraper.py:7-14 | raises exactly when the text is not a real `YYYY-MM-DD` date; otherwise gives the years between that date and `today` |
| Dates.AgeCountsAnniversaries | src/scraper.py:13 | the computed age counts the birthdays reached: the `n`-th has come exactly when `n` is at most the age |
| Dates.ExtractAgeRaisesOnlyOnBadMarker | src/scraper.py:115-137 | `extract_age` raises exactly when there is no "(age N)", there is a parenthesised ISO marker, and that marker is not a real date |
| Dates.ExtractAge | src/scraper.py:115-138 | an "(age N)" annotation gives N; without one, no date of birth gives `None`; otherwise the date of birth either raises, when it is no real date, or gives the age on `today` |
| Dates.AgeAnnotationRecognised | src/scraper.py:124 | "(age" then an optional no-break space, digits and ")" is recognised after any text holding no "(age", whatever follows, and gives the digits' value |
| Dates.AgeAnnotationBeforeBadMarker | src/scraper.py:123-126 | "(1996-13-40) (age N)" gives N: the annotation wins over a date of birth that would raise |
| Dates.PlainSpaceAgeIgnored | src/scraper.py:124 | "(age 28)" with a plain space is no annotation: the pattern admits only a no-break space |
| Infobox.ExtractPlaceAndCountry | src/scraper.py:140-155 | a place is returned exactly when the text holds a comma |
| Infobox.PlaceAndCountrySplit | src/scraper.py:147-152 | "place,country" with no comma in the country gives the stripped place and the stripped country |
| Infobox.NoCommaMeansCountryOnly | src/scraper.py:153-155 | text without a comma is all country, stripped, and there is no place |
| Infobox.CountryHasNoComma | src/scraper.py:147-151 | the country never contains a comma, since the split is at the last one |
| Infobox.MatchLabelIsFirstContained | src/scraper.py:288-303 | a header gets the `k`-th label exactly when it contains the `k`-th text and none tested before; it gets none when it contains none of the six |
| Infobox.ApplyLabel | src/scraper.py:288-304 | each label writes its own fields and nothing else: full name; date of birth and age (raising exactly when `extract_age` does); place and country of birth; country; positions; the dead flag; an unmatched row changes nothing |
| Infobox.ApplyRow | src/scraper.py:281-304 | a row lacking a header or a data cell changes nothing; otherwise the stripped header's label is applied to the cleaned data text; a failure comes only from a date-of-birth row whose age extraction raises; the fields outside the infobox are kept |
| Infobox.DispatchRowsAppend | src/scraper.py:281-304 | the loop applies rows in order: one more row is applied to what the earlier rows made, so a later row overwrites an earlier one |
| Infobox.DispatchRows | src/scraper.py:279-304 | the whole infobox pass, when it does not raise, leaves url, name, club, team, apps, goals and timestamp alone |
| Infobox.RowFields | src/scraper.py:281-304 | for one row that does not raise, each infobox field is the value its label gives, or is unchanged when the row carries another label; the country is written by both a country row and a place-of-birth row |
| Infobox.LastLabelledAppend | src/scraper.py:281 | the last row carrying one of a set of labels, after one more row: that row if it carries one, else the earlier answer |
| Infobox.DispatchRowsFields | src/scraper.py:279-304 | after the whole infobox pass, each field comes from the last row carrying its label, or keeps its value before the pass when there is none: full name, positions, place, date of birth and age from their rows; the country from the last country or place-of-birth row; the dead flag set when any date-of-death row exists |
| Infobox.DispatchStopsAtFailure | src/scraper.py:281-292 | once a row raises, the pass ends with that error whatever rows follow |
| Infobox.DispatchInfobox | src/scraper.py:280-304 | the row loop computes the specification fold `DispatchRows` |
| Fallback.DobBy | src/scraper.py:30-39 | a date pattern yields only a real date |
| Fallback.DobFromIsFirstYield | src/scraper.py:30-39 | the date of birth is the date of the first pattern that yields one, and there is none exactly when no pattern yields one |
| Fallback.FindDateOfBirth | src/scraper.py:30-39 | the pattern loop with its `break` and `continue` computes the first pattern's date |
| Fallback.PlaceOfBirth | src/scraper.py:41-44 | a place found is a non-empty run of letters, whitespace and commas |
| Fallback.PlaceRecognised | src/scraper.py:41-44 | after "born in " the place is the longest run of letters, whitespace and commas |
| Fallback.GreedyGroupAt | src/scraper.py:49 | a greedy group match has its prefix before it and its suffix after it, and is no longer than the run of its class |
| Fallback.GreedySearch | src/scraper.py:49-57 | a group found is non-empty, made of its class, and occurs in the text between prefix and suffix |
| Fallback.GreedyRecognised | src/scraper.py:49-57 | in prefix + group + suffix the greedy group backs off to exactly the group, even when the suffix is made of the group's class |
| Fallback.CountryPhrase | src/scraper.py:49-52 | the value stored as the country of birth sits in "is a … footballer" and is made of letters, whitespace and commas |
| Fallback.CountryPhraseRecognised | src/scraper.py:49-52 | "is a W footballer" gives `W` |
| Fallback.NationalTeamPhrase | src/scraper.py:54-57 | the team found sits in "has represented the … national team" and is made of letters and whitespace |
| Fallback.NationalTeamRecognised | src/scraper.py:54-57 | "has represented the W national team" gives `W` |
| Fallback.LazyClubAt | src/scraper.py:60 | the lazy club group is non-empty, made of `[\w\s.-]`, has no period after its first character, and is followed by a period |
| Fallback.ClubMatchAt | src/scraper.py:59-62 | a match gives a non-empty positions group followed by " for local club " and a lazy club group |
| Fallback.ClubMatch | src/scraper.py:62-65 | the stripped club has no period after its first character |
| Fallback.ClubGroupPeriods | src/scraper.py:65 | stripping keeps the club free of periods after its first character |
| Fallback.TextBasedInfo | src/scraper.py:17-67 | a date of birth is found exactly when some pattern yields a valid date, and an age exactly when a date is; that date is the first such pattern's date in canonical form, and the age is computed from it and `today`; place, country and national team are the results of their phrase searches; positions and club are both found from the first "plays as a" match, or both absent |
| Fallback.ScrapeTextBasedInfo | src/scraper.py:17-67 | the step-by-step function computes `TextBasedInfo` |
| History.FindInternationalCareerHeader | src/scraper.py:158-163 | returns the first row whose header contains "International career", and none exactly when no row does |
| History.ScanCareerRows | src/scraper.py:175-182 | the reversed walk returns the team of the bottom-most row with a linked data cell |
| History.FindMostRecentNationalTeam | src/scraper.py:166-184 | computes `MostRecentNationalTeam`: the team of the last linked row below the header |
| History.NationalTeamIsBottomLink | src/scraper.py:166-184 | no header means no team; otherwise the team is that of a linked row below the header with no linked row after it, and none exactly when no row below is linked |
| History.FooterRowsIgnored | src/scraper.py:175-182 | rows without a linked team appended below (footers) do not change the result |
| History.MostRecentNationalTeam | src/scraper.py:166-184 | a team is found only below an international career header that has rows after it |
| History.SectionEnd | src/scraper.py:196-203 | the walk down from `start` stops within the table |
| History.SectionEndReached | src/scraper.py:196-203 | the walk stops at the first row equal to the international header's row, or at the end |
| History.SectionStopsAtInternationalHeader | src/scraper.py:196-201 | a senior section above the international header ends at or before it |
| History.CollectSeniorRows | src/scraper.py:192-203 | the collecting loop gathers exactly the rows from `start` to the section's end |
| History.ClubInfoOf | src/scraper.py:212-225 | the club is the row's first-cell link text; apps and goals are set exactly when there are three data cells, from the second and third, goals with parentheses stripped |
| History.ReadClubInfo | src/scraper.py:212-226 | the open-spell branch computes `ClubInfoOf` |
| History.ScanSeniorRows | src/scraper.py:205-226 | the reversed walk reads the bottom-most open spell, or gives all `None` |
| History.FindCurrentClubAndStats | src/scraper.py:187-232 | collecting then scanning computes `CurrentClub` |
| History.CurrentClubIsLastOpenSpell | src/scraper.py:187-232 | no senior header or no open spell gives all `None`; otherwise the club is read from an open spell with no open spell below it |
| History.CurrentClub | src/scraper.py:187-232 | no senior career header gives all `None`; appearances are read exactly when goals are |
| Scraper.MergeText | src/scraper.py:306-307 | `update` overwrites each of date of birth, age, place, country, national team, positions and club exactly when the text pass found it, and keeps url, name, full name, timestamp, dead flag, apps and goals |
| Scraper.Scrape | src/scraper.py:254-316 | no record exactly for a page that is not a player's; a player page without `h1` raises |
| Scraper.ScrapePlayerInfo | src/scraper.py:254-313 | the step-by-step method computes `Scrape` |
| Scraper.ScrapedFieldSources | src/scraper.py:260-311 | a scraped record keeps URL and timestamp, is named after the cleaned heading, and takes national team, club, apps and goals from the career tables; with an infobox every other field comes from the last row carrying its label; without one, place, country, positions and date of birth come from the text pass, and there is no full name and no dead flag |
| Scraper.TextPassTeamAndClubDiscarded | src/scraper.py:305-311 | on a page without an infobox, the team and club found in the text are overwritten with `None` |
| Scraper.TextPassAgeFollowsDate | src/scraper.py:46-47 | on the text path the age stays the placeholder exactly when no date is found; otherwise it is the age computed from that date |
| Scraper.InfoboxIgnoresText | src/scraper.py:279-307 | a page with an infobox never reads the running text |
| Store.CreateTable | src/db_manager.py:41-60 | the table exists afterwards; an existing one is left alone and no row is touched |
| Store.ExecuteSql | src/db_manager.py:18-27 | a statement that succeeds is committed; one that fails leaves the database unchanged |
| Store.LookupId | src/db_manager.py:29-39 | a `None` url or a missing table gives `None`; otherwise the id of the row with that url |
| Store.Overwrite | src/db_manager.py:68-80 | the seed update takes every column from the incoming row but `player_id` and `url` |
| Store.RefreshField | src/db_manager.py:103-113 | as written, each `CASE` yields the incoming value, `NULL` included |
| Store.SeedStatement | src/db_manager.py:62-82 | the seed statement fails exactly when the table is missing or it inserts an id already in use; when it succeeds the record's url has a row |
| Store.RefreshStatement | src/db_manager.py:95-117 | the refresh statement fails exactly when the table is missing or it inserts an id already in use; when it succeeds the record's url has a row |
| Store.RefreshIsSeed | src/db_manager.py:62-117 | because of that, the refresh statement has exactly the effect of the seed statement |
| Store.SeedReplacesRow | src/db_manager.py:68-80 | a url conflict rewrites that row's data, keeps its id and url, and changes no other row |
| Store.InsertedIdInUse | src/db_manager.py:64-67 | after an insert its primary key is in use |
| Store.SeedIdempotent | src/db_manager.py:62-82 | for a record with a url or an id, seeding it twice has the effect of seeding it once |
| Store.NullUrlNeverMerges | src/db_manager.py:45 | a record without a url is never merged: seed and refresh both insert a new row |
| Store.PrimaryKeyConflictSwallowed | src/db_manager.py:44 | an insert whose id is in use fails and is swallowed, leaving the table unchanged |
| Store.MissingTableUnchanged | src/db_manager.py:18-27 | without the table every upsert fails and changes nothing |
| Store.InsertKeepsValid | src/db_manager.py:43-58 | a successful insert keeps one row per url and distinct primary keys |
| Store.SeedKeepsValid | src/db_manager.py:62-82 | the seed upsert keeps one row per url and distinct primary keys |
| Store.RefreshKeepsValid | src/db_manager.py:84-117 | the refresh upsert keeps both guarantees, whatever id was chosen |
| Store.RefreshReusesStoredId | src/db_manager.py:85-89 | a truthy stored id is chosen and the row keeps it |
| Store.ChooseId | src/db_manager.py:85-93 | the stored id when it is truthy; else the caller's id when that is truthy; else the minted one; and a non-empty id whenever the minted one is |
| Store.RefreshUpsert | src/db_manager.py:84-117 | the refresh call never creates or drops the table; on a url already stored it adds no url and keeps that row's id |
| Store.FalsyStoredIdNotReused | src/db_manager.py:87-93 | a falsy stored id makes the call mint a new id, but the update keeps the stored id, so the minted one is never written |
| Store.RefreshIdempotent | src/db_manager.py:84-117 | for a record with a url, whose first call mints a non-empty id not yet in use, refreshing it twice has the effect of refreshing it once |
| Store.IntendedRefreshField | src/db_manager.py:103-113 | the intended merge keeps the stored value when the incoming one is `NULL` and takes the incoming value otherwise |
| Store.RefreshErasesStoredValue | src/db_manager.py:103 | as written, a stored name meets an incoming `NULL` and becomes `NULL`; the intended merge keeps it |
| Store.MergedErasesNothing | src/db_manager.py:103-113 | a row merged column by column from the stored and the incoming row is NULL in no column the stored row filled |
| Store.IntendedRefreshKeepsStored | src/db_manager.py:103-113 | in all eleven data columns the intended merge takes the incoming value when there is one and keeps the stored one otherwise, so it erases no stored value; it keeps id and url, takes the new timestamp, and is idempotent |
| Database.DatabaseManager.constructor | src/db_manager.py:6-8 | the manager starts connected to the database already there |
| Database.DatabaseManager.ExecuteSql | src/db_manager.py:18-27 | the fields become what `Store.ExecuteSql` gives |
| Database.DatabaseManager.CreateTable | src/db_manager.py:41-60 | the fields become `Store.CreateTable` of the old state, keeping validity |
| Database.DatabaseManager.GetPlayerIdByUrl | src/db_manager.py:29-39 | the query returns `LookupId` of the current state |
| Database.DatabaseManager.InsertOrUpdateTableFromCsv | src/db_manager.py:62-82 | the new state is the seed upsert of the old one, keeping validity |
| Database.DatabaseManager.InsertOrUpdateTableFromScraper | src/db_manager.py:84-117 | the caller's record gets the chosen id; the new state is the refresh of the old one (equal to the seed upsert), keeping validity |
| CsvRows.TextField | src/csv_importer.py:22 | raises exactly when the column holds `None`; otherwise the unstripped value when not blank, else `None` |
| CsvImport.DigitField | src/csv_importer.py:33-35 | raises exactly when the column holds `None`; keeps the unstripped value exactly when its stripped text is a non-empty run of digits |
| CsvImport.CsvColumnsRenamed | src/csv_importer.py:18-62 | each seed column lands normalised in its field; the URL is copied; the id is `PlayerID` whenever present, else the minted one; apps, goals and timestamp are `NULL` |
| CsvImport.CsvAgeDigitChecked | src/csv_importer.py:33-35 | the age is kept, unstripped, exactly when its stripped text is a non-empty run of digits |
| CsvImport.CsvRowRaisesIff | src/csv_importer.py:19-62 | a seed row raises exactly when one of its nine normalised columns holds `None` |
| CsvImport.CsvRecord | src/csv_importer.py:18-62 | a seed record never carries apps, goals or a timestamp, and takes the minted id when the row has no `PlayerID` column |
| CsvImport.SeedRows | src/csv_importer.py:16-69 | a run aborts at a row that raises after rows that all built, and completes only when every row builds |
| CsvImport.SeedRowsStopsAtFirstBadRow | src/csv_importer.py:16-69 | a run ends at the first row that raises; the rows before it stay committed and nothing after is written |
| CsvImport.ImportCsvToDb | src/csv_importer.py:9-69 | creates the table, then seeds the rows in order, exactly as `SeedRows` says; the table exists and validity is kept |
| ScraperImport.ScraperColumnsKept | src/scraper_importer.py:19-69 | the eleven text columns land normalised in their fields; url and timestamp are copied; no id is carried |
| ScraperImport.ScraperRowRaisesIff | src/scraper_importer.py:19-67 | a scraper row raises exactly when one of its eleven normalised columns holds `None` |
| ScraperImport.ScraperRecord | src/scraper_importer.py:19-69 | a scraper record carries no id and copies the row's url |
| ScraperImport.RefreshRows | src/scraper_importer.py:18-76 | a run aborts at a row that raises after rows that all built, and completes only when every row builds |
| ScraperImport.ScraperRowIdChoice | src/scraper_importer.py:19-71 | with no id in the row, the upsert keeps the stored id when truthy, else uses the minted one |
| ScraperImport.RefreshRowsStopsAtFirstBadRow | src/scraper_importer.py:18-76 | a run ends at the first row that raises; earlier rows stay committed and nothing after is written |
| ScraperImport.RefreshRowsWithoutTable | src/scraper_importer.py:11-12 | the importer never creates the table, so on a database without one it writes nothing |
| ScraperImport.ImportScraperToDb | src/scraper_importer.py:11-76 | refreshes the rows in order, exactly as `RefreshRows` says, keeping validity |

## Left out

- Fetching the page (`requests.get`) and parsing the HTML (Beautiful Soup) are not modelled. A page
  is given as a `Page.WikiPage`: the `h1` text, the infobox rows, the category texts and the page
  text. `text` and `get_text()` are taken as given strings.
- The career scans look only at the infobox rows. The source searches every `th` of the page and the
  table that holds it. A career table outside the "infobox vcard" table is therefore not modelled,
  and `Scraper.TextPassTeamAndClubDiscarded` holds under that assumption.
- Nested tables are not modelled; `find_parent("table")` is taken to be the infobox.
- Digits, letters and `\w` are ASCII only. Python's `\d`, `\w`, `isdigit()` and `lower()` also
  accept other Unicode characters. Whitespace is Python's full `isspace()` set.
- `strftime("%Y")` is modelled as zero-padded to four digits. For years below 1000 the C library
  may print fewer digits.
- `%d` also accepts a day with one leading space or zero, as `strptime` does. `strptime`'s other
  leniencies are not modelled: whitespace inside the format and locale month names.
- The placeholder age `int` is kept as `AgeUnset`. What SQLite would store for it is not modelled.
- SQLite's type affinity is not modelled: `INTEGER` columns receiving text, and apps and goals
  stored as text. Values are kept as the strings the code passes.
- A failed connection (`_connect_to_db` returning `None`) is not modelled; the database is always
  reachable. The errors other than a missing table or a primary-key clash are not modelled either.
- `close_connection` is not modelled: closing changes no row. Note that the `sys.exit(1)` path never
  reaches it.
- The `dead` flag is set by the infobox pass but never written to the table, since the statements
  have no such column.
- `print` messages and the exit status are not modelled beyond the run's outcome (`Aborted(i)`).
- Opening or decoding the CSV file, a malformed CSV line, and columns beyond the header are not
  modelled; a row is given as a map from column name to value.
- A scraper dictionary without a `url` key is not modelled: the importer always passes one, and the
  id logic only runs when the key is present.
- `Dates.ExtractDateOfBirth`: its contract states only the length of the result; what it returns
  for each form is stated by the recognition lemmas beside it.
- `soup.find("th", text="Senior career*")` compares the `th`'s `.string`, which is `None` when the cell
  has child tags, so such a header is never found. `History.IsSeniorHeaderRow` compares the whole
  cell text instead, so it also finds a header whose text is split over child tags.
- `History.SectionEnd` compares rows with datatype equality. Beautiful Soup compares `Tag`s
  structurally, by name, attributes and contents, which the model's rows stand for only as far as
  they record those.
- `Fallback.ClubMatch`: its contract states only the shape of the club; the positions group is
  described by `Fallback.ClubMatchAt`.

## Findings

| source | as written | input that shows it | evidently intended | confidence | as-written member | corrected member |
|---|---|---|---|---|---|---|
| src/db_manager.py:103-113 | each `CASE WHEN excluded.c IS NOT c OR (c IS NULL AND excluded.c IS NOT NULL) THEN excluded.c ELSE c END` yields `excluded.c` in every case, because `IS NOT` is null-safe: a refresh whose scraped value is `NULL` erases the stored one | stored name "Giorgos Karagounis", refreshed with a record whose name is `None` | a missing scraped value keeps the stored one (`COALESCE(excluded.c, c)`), so a later, less informed scrape never erases a known fact | high; not executed | Store.RefreshErasesStoredValue | Store.IntendedRefreshKeepsStored |

`Database.DatabaseManager` and `ScraperImport` model the statement as written (`Store.RefreshField`),
since that is what the program runs. `Store.IntendedRefreshField` is the corrected merge, and the
lemmas about it show that it never erases a stored value.
