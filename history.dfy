/**
 * The two career scans over the infobox rows: the most recent national team
 * (the last linked team below the "International career" header) and the
 * current club with its appearances and goals (the last open-ended spell,
 * "2017–", of the senior career section).
 *
 * Each scan is a method that walks the rows as the scraper does, proved equal
 * to a specification function; the lemmas say what those functions pick.
 */
module History {
  import opened Wrappers
  import opened Text
  import opened Page

  const InternationalCareer: string := "International career"

  /** The exact text the senior career header must have: `soup.find("th", text="Senior career*")`. */
  const SeniorCareer: string := "Senior career*"

  predicate IsIntlHeaderRow(row: Row) {
    row.header.Some? && Contains(row.header.value.text, InternationalCareer)
  }

  /** The row holding the first `th` whose text contains "International career". */
  function IntlHeaderIndex(rows: seq<Row>): Option<int> {
    FirstWhere(rows, IsIntlHeaderRow, 0)
  }

  /** `find_international_career_header`: the first header row whose text mentions the international career. */
  method FindInternationalCareerHeader(rows: seq<Row>) returns (r: Option<int>)
    ensures r == IntlHeaderIndex(rows)
    ensures r.Some? ==> 0 <= r.value < |rows| && IsIntlHeaderRow(rows[r.value])
                        && forall j :: 0 <= j < r.value ==> !IsIntlHeaderRow(rows[j])
    ensures r.None? <==> forall j :: 0 <= j < |rows| ==> !IsIntlHeaderRow(rows[j])
  {
    var i := 0;
    while i < |rows|
      invariant 0 <= i <= |rows|
      invariant forall j :: 0 <= j < i ==> !IsIntlHeaderRow(rows[j])
    {
      if IsIntlHeaderRow(rows[i]) {
        FirstWhereUnique(rows, IsIntlHeaderRow, 0, i);
        return Some(i);
      }
      i := i + 1;
    }
    return None;
  }

  /** The stripped text of the first link in the row's first data cell: `cell.find("a").text.strip()`. */
  function FirstLinkText(row: Row): Option<string> {
    match FirstDataCell(row)
    case Some(c) => if c.link.Some? then Some(Strip(c.link.value)) else None
    case None => None
  }

  predicate HasLinkedTeam(row: Row) {
    FirstLinkText(row).Some?
  }

  /** The team of the bottom-most linked row of `careerRows`. */
  function LastLinkedTeam(careerRows: seq<Row>): Option<string> {
    match LastWhere(careerRows, HasLinkedTeam, 0, |careerRows|)
    case Some(k) => FirstLinkText(careerRows[k])
    case None => None
  }

  /** The rows below the international career header, `all_rows[header_index + 1:]`, and the last team among them. */
  function MostRecentNationalTeam(rows: seq<Row>): (r: Option<string>)
    ensures r.Some? ==> IntlHeaderIndex(rows).Some? && IntlHeaderIndex(rows).value + 1 < |rows|
  {
    match IntlHeaderIndex(rows)
    case None => None
    case Some(h) => LastLinkedTeam(rows[h + 1..])
  }

  /**
   * `find_most_recent_national_team`: the rows after the header, walked by
   * `ScanCareerRows`.
   */
  method FindMostRecentNationalTeam(rows: seq<Row>) returns (team: Option<string>)
    ensures team == MostRecentNationalTeam(rows)
  {
    var header := FindInternationalCareerHeader(rows);
    if header.Some? {
      var careerRows := rows[header.value + 1..];
      team := ScanCareerRows(careerRows);
      return;
    }
    return None;
  }

  /**
   * The loop of `find_most_recent_national_team`: walks the career rows from
   * the bottom up and returns the first linked team it meets. The footer test
   * on the class `infobox-below` only skips to the next row, which the walk
   * does anyway, so the result does not depend on it.
   */
  method ScanCareerRows(careerRows: seq<Row>) returns (team: Option<string>)
    ensures team == LastLinkedTeam(careerRows)
  {
    var i := |careerRows|;
    while i > 0
      invariant 0 <= i <= |careerRows|
      invariant forall j :: i <= j < |careerRows| ==> !HasLinkedTeam(careerRows[j])
    {
      i := i - 1;
      var row := careerRows[i];
      var teamCell := FirstDataCell(row);
      if teamCell.Some? && teamCell.value.link.Some? {
        LastWhereUnique(careerRows, HasLinkedTeam, 0, |careerRows|, i);
        return Some(Strip(teamCell.value.link.value));
      }
      if row.classes == ["infobox-below"] {
        continue;
      }
    }
    return None;
  }

  /**
   * What the national team scan picks: nothing without an international
   * career header; otherwise the team of a linked row below the header with
   * no linked row under it, or nothing when no row below the header is linked.
   */
  lemma NationalTeamIsBottomLink(rows: seq<Row>)
    ensures IntlHeaderIndex(rows).None? ==> MostRecentNationalTeam(rows).None?
    ensures IntlHeaderIndex(rows).Some? ==>
      var career := rows[IntlHeaderIndex(rows).value + 1..];
      && (MostRecentNationalTeam(rows).None? <==> forall k :: 0 <= k < |career| ==> !HasLinkedTeam(career[k]))
      && (MostRecentNationalTeam(rows).Some? ==>
            exists k :: 0 <= k < |career| && MostRecentNationalTeam(rows) == FirstLinkText(career[k])
                        && forall j :: k < j < |career| ==> !HasLinkedTeam(career[j]))
  {
    if IntlHeaderIndex(rows).Some? {
      var career := rows[IntlHeaderIndex(rows).value + 1..];
      var l := LastWhere(career, HasLinkedTeam, 0, |career|);
      if l.Some? {
        assert MostRecentNationalTeam(rows) == FirstLinkText(career[l.value]);
      }
    }
  }

  /**
   * Rows without a linked team (footers, notes) appended below the table do
   * not change the national team, once there is an international career header.
   */
  lemma FooterRowsIgnored(rows: seq<Row>, footer: seq<Row>)
    requires IntlHeaderIndex(rows).Some?
    requires forall k :: 0 <= k < |footer| ==> !HasLinkedTeam(footer[k])
    ensures MostRecentNationalTeam(rows + footer) == MostRecentNationalTeam(rows)
  {
    var all := rows + footer;
    var h := IntlHeaderIndex(rows).value;
    assert all[..|rows|] == rows;
    FirstWhereOfPrefix(all, IsIntlHeaderRow, |rows|, h);
    var career := rows[h + 1..];
    assert all[h + 1..] == career + footer;
    LastWhereAppendNone(career, footer, HasLinkedTeam);
    var l := LastWhere(career, HasLinkedTeam, 0, |career|);
    if l.Some? {
      assert (career + footer)[l.value] == career[l.value];
    }
  }

  // ---------------------------------------------------------------------
  // Current club
  // ---------------------------------------------------------------------

  predicate IsSeniorHeaderRow(row: Row) {
    row.header.Some? && row.header.value.text == SeniorCareer
  }

  function SeniorHeaderIndex(rows: seq<Row>): Option<int> {
    FirstWhere(rows, IsSeniorHeaderRow, 0)
  }

  /**
   * Where the walk down from `start` stops: at the first row equal to the
   * international career header's row, or past the last row.
   */
  function SectionEnd(rows: seq<Row>, start: int): (e: int)
    requires 0 <= start <= |rows|
    ensures start <= e <= |rows|
  {
    match IntlHeaderIndex(rows)
    case None => |rows|
    case Some(h) =>
      var stop := rows[h];
      match FirstWhere(rows, row => row == stop, start)
      case Some(k) => k
      case None => |rows|
  }

  /** A spell still running: an `infobox-label` header whose stripped text ends in an en dash, "2017–". */
  predicate IsOpenSpell(row: Row) {
    && row.header.Some?
    && "infobox-label" in row.header.value.classes
    && Contains(row.header.value.text, [EnDash])
    && EndsWith(Strip(row.header.value.text), [EnDash])
  }

  datatype ClubInfo = ClubInfo(club: Option<string>, apps: Option<string>, goals: Option<string>)

  const NoClubInfo := ClubInfo(None, None, None)

  /**
   * The club, appearances and goals read from one career row: the club only
   * from a link, the two numbers only when the row has three data cells.
   */
  function ClubInfoOf(row: Row): (r: ClubInfo)
    ensures r.club == FirstLinkText(row)
    ensures r.apps.Some? <==> |DataCells(row.cells)| >= 3
    ensures r.goals.Some? <==> |DataCells(row.cells)| >= 3
    ensures r.apps.Some? ==> r.apps.value == Strip(DataCells(row.cells)[1].text)
    ensures r.goals.Some? ==> r.goals.value == StripParens(Strip(DataCells(row.cells)[2].text))
  {
    var stats := DataCells(row.cells);
    if |stats| >= 3 then ClubInfo(FirstLinkText(row), Some(Strip(stats[1].text)), Some(StripParens(Strip(stats[2].text))))
    else ClubInfo(FirstLinkText(row), None, None)
  }

  /** The club of the bottom-most open spell of the section, or nothing. */
  function OpenSpellInfo(section: seq<Row>): ClubInfo {
    match LastWhere(section, IsOpenSpell, 0, |section|)
    case Some(k) => ClubInfoOf(section[k])
    case None => NoClubInfo
  }

  /** The senior career section, `senior_career_rows`, and the club read from it. */
  function CurrentClub(rows: seq<Row>): (r: ClubInfo)
    ensures SeniorHeaderIndex(rows).None? ==> r == NoClubInfo
    ensures r.apps.Some? <==> r.goals.Some?
  {
    match SeniorHeaderIndex(rows)
    case None => NoClubInfo
    case Some(s) => OpenSpellInfo(rows[s + 1..SectionEnd(rows, s + 1)])
  }

  /** `find_current_club_and_stats`: collect the section, then read the club from it. */
  method FindCurrentClubAndStats(rows: seq<Row>) returns (info: ClubInfo)
    ensures info == CurrentClub(rows)
  {
    var senior := SeniorHeaderIndex(rows);
    var intl := FindInternationalCareerHeader(rows);
    if senior.Some? {
      var seniorRows := CollectSeniorRows(rows, senior.value + 1, intl);
      info := ScanSeniorRows(seniorRows);
      return;
    }
    return NoClubInfo;
  }

  /**
   * The first loop of `find_current_club_and_stats`: the rows from `start`
   * down to the international career header's row or the end of the table.
   */
  method CollectSeniorRows(rows: seq<Row>, start: int, intl: Option<int>) returns (seniorRows: seq<Row>)
    requires 0 <= start <= |rows| && intl == IntlHeaderIndex(rows)
    ensures seniorRows == rows[start..SectionEnd(rows, start)]
  {
    seniorRows := [];
    var i := start;
    while i < |rows|
      invariant start <= i <= |rows|
      invariant seniorRows == rows[start..i]
      invariant forall k :: start <= k < i ==> !(intl.Some? && rows[k] == rows[intl.value])
    {
      if intl.Some? && rows[i] == rows[intl.value] {
        break;
      }
      seniorRows := seniorRows + [rows[i]];
      i := i + 1;
    }
    SectionEndReached(rows, start, i);
  }

  /** The collecting walk stops exactly at `SectionEnd`. */
  lemma SectionEndReached(rows: seq<Row>, start: int, i: int)
    requires 0 <= start <= i <= |rows|
    requires forall k :: start <= k < i ==> !(IntlHeaderIndex(rows).Some? && rows[k] == rows[IntlHeaderIndex(rows).value])
    requires i == |rows| || (IntlHeaderIndex(rows).Some? && rows[i] == rows[IntlHeaderIndex(rows).value])
    ensures i == SectionEnd(rows, start)
  {
    if IntlHeaderIndex(rows).Some? {
      var h := IntlHeaderIndex(rows).value;
      var stop := rows[h];
      if i < |rows| {
        FirstWhereUnique(rows, row => row == stop, start, i);
      }
    }
  }

  /**
   * The second loop of `find_current_club_and_stats`: walks the section from
   * the bottom up and reads the first open spell it meets.
   */
  method ScanSeniorRows(seniorRows: seq<Row>) returns (info: ClubInfo)
    ensures info == OpenSpellInfo(seniorRows)
  {
    var j := |seniorRows|;
    while j > 0
      invariant 0 <= j <= |seniorRows|
      invariant forall m :: j <= m < |seniorRows| ==> !IsOpenSpell(seniorRows[m])
    {
      j := j - 1;
      var row := seniorRows[j];
      if IsOpenSpell(row) {
        LastWhereUnique(seniorRows, IsOpenSpell, 0, |seniorRows|, j);
        info := ReadClubInfo(row);
        return;
      }
    }
    return NoClubInfo;
  }

  /** The body of the open-spell branch: the club from the link, the numbers from the second and third data cells. */
  method ReadClubInfo(row: Row) returns (info: ClubInfo)
    ensures info == ClubInfoOf(row)
  {
    var club: Option<string> := None;
    var apps: Option<string> := None;
    var goals: Option<string> := None;
    var clubCell := FirstDataCell(row);
    if clubCell.Some? && clubCell.value.link.Some? {
      club := Some(Strip(clubCell.value.link.value));
    }
    var stats := DataCells(row.cells);
    if |stats| >= 3 {
      apps := Some(Strip(stats[1].text));
      goals := Some(StripParens(Strip(stats[2].text)));
    }
    return ClubInfo(club, apps, goals);
  }

  /**
   * What the club scan picks: nothing without a senior career header or
   * without an open spell in its section; otherwise the row of an open spell
   * in the section below which the section has no other open spell.
   */
  lemma CurrentClubIsLastOpenSpell(rows: seq<Row>)
    ensures SeniorHeaderIndex(rows).None? ==> CurrentClub(rows) == NoClubInfo
    ensures SeniorHeaderIndex(rows).Some? ==>
      var s := SeniorHeaderIndex(rows).value;
      var section := rows[s + 1..SectionEnd(rows, s + 1)];
      && ((forall k :: 0 <= k < |section| ==> !IsOpenSpell(section[k])) ==> CurrentClub(rows) == NoClubInfo)
      && ((exists k :: 0 <= k < |section| && IsOpenSpell(section[k])) ==>
            exists k :: 0 <= k < |section| && IsOpenSpell(section[k]) && CurrentClub(rows) == ClubInfoOf(section[k])
                        && forall j :: k < j < |section| ==> !IsOpenSpell(section[j]))
  {
    if SeniorHeaderIndex(rows).Some? {
      var s := SeniorHeaderIndex(rows).value;
      var section := rows[s + 1..SectionEnd(rows, s + 1)];
      var l := LastWhere(section, IsOpenSpell, 0, |section|);
      if l.Some? {
        assert CurrentClub(rows) == ClubInfoOf(section[l.value]);
      }
    }
  }

  /** The section stops at the international career header: a spell under that header is never read as a club. */
  lemma SectionStopsAtInternationalHeader(rows: seq<Row>)
    requires SeniorHeaderIndex(rows).Some? && IntlHeaderIndex(rows).Some?
    requires SeniorHeaderIndex(rows).value < IntlHeaderIndex(rows).value
    ensures SectionEnd(rows, SeniorHeaderIndex(rows).value + 1) <= IntlHeaderIndex(rows).value
  {
    var s := SeniorHeaderIndex(rows).value;
    var h := IntlHeaderIndex(rows).value;
    var stop := rows[h];
    assert (row => row == stop)(rows[h]);
    var f := FirstWhere(rows, row => row == stop, s + 1);
    assert f.Some? && f.value <= h;
  }
}
