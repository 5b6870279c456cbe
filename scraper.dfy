/**
 * `scrape_player_info`: decides whether a page is a footballer's, builds the
 * player dictionary, fills it from the infobox (or from the running text
 * when there is none), then overwrites the national team and the club
 * figures with what the career tables say.
 *
 * The page is given already fetched and parsed; `today` stands for
 * `datetime.today()` and `timestamp` for the formatted `datetime.now()`.
 */
module Scraper {
  import opened Wrappers
  import opened Dates
  import opened Brackets
  import opened Page
  import opened Classifier
  import opened History
  import opened Player
  import opened Infobox
  import opened Fallback

  /** The exceptions that leave `scrape_player_info`. */
  datatype Failure =
    | NoHeading                  // `soup.find("h1")` is `None`, so `.text` raises
    | DateFailure(e: DateError)  // `extract_age` raised on the date-of-birth row

  /** `None` for a page that is not a footballer's, the dictionary, or an exception. */
  datatype Outcome = NotAPlayer | Raised(failure: Failure) | Scraped(info: PlayerInfo)

  /** `player_info.update(text_based_info)`: the keys found overwrite, the others are kept. */
  function MergeText(info: PlayerInfo, t: TextInfo): (r: PlayerInfo)
    ensures r.url == info.url && r.name == info.name && r.fullName == info.fullName && r.timestamp == info.timestamp
    ensures r.dead == info.dead && r.appsCurrentClub == info.appsCurrentClub && r.goalsCurrentClub == info.goalsCurrentClub
    ensures r.dateOfBirth == (if t.dateOfBirth.Some? then t.dateOfBirth else info.dateOfBirth)
    ensures r.age == (if t.age.Some? then AgeOf(Some(t.age.value)) else info.age)
    ensures r.currentClub == (if t.currentClub.Some? then t.currentClub else info.currentClub)
    ensures r.placeOfBirth == (if t.placeOfBirth.Some? then t.placeOfBirth else info.placeOfBirth)
    ensures r.countryOfBirth == (if t.countryOfBirth.Some? then t.countryOfBirth else info.countryOfBirth)
    ensures r.nationalTeam == (if t.nationalTeam.Some? then t.nationalTeam else info.nationalTeam)
    ensures r.positions == (if t.positions.Some? then t.positions else info.positions)
  {
    info.(
      dateOfBirth := t.dateOfBirth.Or(info.dateOfBirth),
      placeOfBirth := t.placeOfBirth.Or(info.placeOfBirth),
      age := if t.age.Some? then AgeOf(Some(t.age.value)) else info.age,
      countryOfBirth := t.countryOfBirth.Or(info.countryOfBirth),
      nationalTeam := t.nationalTeam.Or(info.nationalTeam),
      positions := t.positions.Or(info.positions),
      currentClub := t.currentClub.Or(info.currentClub))
  }

  /** The dictionary before the infobox or text pass: the heading, brackets removed, as the name. */
  function Named(url: string, timestamp: string, heading: string): PlayerInfo {
    Initial(url, timestamp).(name := Some(RemoveTextInBrackets(heading)))
  }

  /** What the infobox loop, or the text pass, makes of the named dictionary. */
  function Body(page: WikiPage, named: PlayerInfo, today: Date): Result<PlayerInfo, DateError> {
    if page.infobox.Some? then DispatchRows(named, page.infobox.value.rows, today)
    else Ok(MergeText(named, TextBasedInfo(page.text, today)))
  }

  /** The last step: the national team and the club figures from the career tables. */
  function WithCareer(info: PlayerInfo, rows: seq<Row>): PlayerInfo {
    var club := CurrentClub(rows);
    info.(nationalTeam := MostRecentNationalTeam(rows), currentClub := club.club,
          appsCurrentClub := club.apps, goalsCurrentClub := club.goals)
  }

  /** The whole of `scrape_player_info` on a fetched page. */
  function Scrape(page: WikiPage, url: string, today: Date, timestamp: string): (r: Outcome)
    ensures r.NotAPlayer? <==> !IsFootballPlayer(page)
    ensures r == Raised(NoHeading) <==> IsFootballPlayer(page) && page.heading.None?
  {
    if !IsFootballPlayer(page) then NotAPlayer
    else if page.heading.None? then Raised(NoHeading)
    else
      match Body(page, Named(url, timestamp, page.heading.value), today)
      case Err(e) => Raised(DateFailure(e))
      case Ok(info) => Scraped(WithCareer(info, Rows(page)))
  }

  /**
   * `scrape_player_info`, step by step: classification, the dictionary, the
   * name, the infobox loop or the text pass, then the career tables.
   */
  method ScrapePlayerInfo(page: WikiPage, url: string, today: Date, timestamp: string) returns (r: Outcome)
    ensures r == Scrape(page, url, today, timestamp)
  {
    if !IsFootballPlayer(page) {
      return NotAPlayer;
    }
    var info := Initial(url, timestamp);
    if page.heading.None? {
      return Raised(NoHeading);
    }
    info := info.(name := Some(RemoveTextInBrackets(page.heading.value)));
    if page.infobox.Some? {
      var dispatched := DispatchInfobox(info, page.infobox.value.rows, today);
      if dispatched.Err? {
        return Raised(DateFailure(dispatched.error));
      }
      info := dispatched.value;
    } else {
      var textInfo := ScrapeTextBasedInfo(page.text, today);
      info := MergeText(info, textInfo);
    }
    var team := FindMostRecentNationalTeam(Rows(page));
    info := info.(nationalTeam := team);
    var club := FindCurrentClubAndStats(Rows(page));
    info := info.(currentClub := club.club, appsCurrentClub := club.apps, goalsCurrentClub := club.goals);
    return Scraped(info);
  }

  /**
   * Whatever the infobox or the text says, a scraped dictionary keeps the
   * URL and the timestamp it was given, is named after the page heading,
   * and takes its national team and club figures from the career tables.
   * With an infobox, each of the other fields comes from the last row
   * carrying its label; without one, from the phrases of the running text.
   */
  lemma ScrapedFieldSources(page: WikiPage, url: string, today: Date, timestamp: string)
    requires Scrape(page, url, today, timestamp).Scraped?
    ensures var info := Scrape(page, url, today, timestamp).info;
      && page.heading.Some?
      && info.url == url && info.timestamp == timestamp
      && info.name == Some(RemoveTextInBrackets(page.heading.value))
      && info.nationalTeam == MostRecentNationalTeam(Rows(page))
      && info.currentClub == CurrentClub(Rows(page)).club
      && info.appsCurrentClub == CurrentClub(Rows(page)).apps
      && info.goalsCurrentClub == CurrentClub(Rows(page)).goals
      && (page.infobox.Some? ==>
            InfoboxFieldsFrom(Named(url, timestamp, page.heading.value), page.infobox.value.rows, today, info))
      && (page.infobox.None? ==>
            var t := TextBasedInfo(page.text, today);
            && info.fullName.None? && !info.dead
            && info.dateOfBirth == t.dateOfBirth && info.placeOfBirth == Fallback.PlaceOfBirth(page.text)
            && info.countryOfBirth == CountryPhrase(page.text) && info.positions == t.positions)
  {
    if page.infobox.Some? {
      DispatchRowsFields(Named(url, timestamp, page.heading.value), page.infobox.value.rows, today);
    }
  }

  /**
   * Without an infobox there are no career tables either, so the national
   * team and the club the text pass may have found are overwritten with
   * `None`.
   */
  lemma TextPassTeamAndClubDiscarded(page: WikiPage, url: string, today: Date, timestamp: string)
    requires page.infobox.None? && Scrape(page, url, today, timestamp).Scraped?
    ensures var info := Scrape(page, url, today, timestamp).info;
      info.nationalTeam.None? && info.currentClub.None? && info.appsCurrentClub.None? && info.goalsCurrentClub.None?
  {
    ScrapedFieldSources(page, url, today, timestamp);
    assert Rows(page) == [];
    CurrentClubIsLastOpenSpell(Rows(page));
  }

  /**
   * On the text pass the age agrees with the date of birth: both are found
   * or neither is, and when neither is the `age` entry keeps its
   * placeholder.
   */
  lemma TextPassAgeFollowsDate(page: WikiPage, url: string, today: Date, timestamp: string)
    requires page.infobox.None? && Scrape(page, url, today, timestamp).Scraped?
    ensures var info := Scrape(page, url, today, timestamp).info;
      && (info.dateOfBirth.None? <==> info.age == AgeUnset)
      && (info.dateOfBirth.Some? ==>
            ParseYmd(info.dateOfBirth.value).Some?
            && info.age == AgeOf(Some(AgeOn(ParseYmd(info.dateOfBirth.value).value, today))))
  {
  }

  /** A page with an infobox never reads the running text: two pages differing only there scrape alike. */
  lemma InfoboxIgnoresText(page: WikiPage, text: string, url: string, today: Date, timestamp: string)
    requires page.infobox.Some?
    ensures Scrape(page.(text := text), url, today, timestamp) == Scrape(page, url, today, timestamp)
  {
  }
}
