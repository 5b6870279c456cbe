/**
 * The dictionary `scrape_player_info` fills in and returns, one field per key.
 */
module Player {
  import opened Wrappers

  /**
   * The `age` entry: it starts out holding the placeholder `int` (the type
   * object, not a number) and is replaced only when a date of birth is read.
   */
  datatype AgeSlot = AgeUnset | AgeOf(age: Option<int>)

  datatype PlayerInfo = PlayerInfo(
    url: string,
    name: Option<string>,
    fullName: Option<string>,
    dateOfBirth: Option<string>,
    age: AgeSlot,
    placeOfBirth: Option<string>,
    countryOfBirth: Option<string>,
    positions: Option<string>,
    currentClub: Option<string>,
    nationalTeam: Option<string>,
    appsCurrentClub: Option<string>,
    goalsCurrentClub: Option<string>,
    timestamp: string,
    dead: bool)

  /** The dictionary as first built: everything empty but the URL and the timestamp. */
  function Initial(url: string, timestamp: string): (r: PlayerInfo)
    ensures r.url == url && r.timestamp == timestamp && r.age == AgeUnset && !r.dead
    ensures r.name.None? && r.fullName.None? && r.dateOfBirth.None? && r.placeOfBirth.None?
    ensures r.countryOfBirth.None? && r.positions.None? && r.currentClub.None? && r.nationalTeam.None?
    ensures r.appsCurrentClub.None? && r.goalsCurrentClub.None?
  {
    PlayerInfo(url, None, None, None, AgeUnset, None, None, None, None, None, None, None, timestamp, false)
  }
}
