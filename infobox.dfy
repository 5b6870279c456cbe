/**
 * The infobox pass of `scrape_player_info`: every row with both a header
 * cell and a data cell is matched against six labels, tested in a fixed
 * order, and the first label the header contains decides which fields the
 * row fills. The place-of-birth row is split at its last comma into a place
 * and a country.
 */
module Infobox {
  import opened Wrappers
  import opened Text
  import opened Dates
  import opened Brackets
  import opened Page
  import opened Player

  // ---------------------------------------------------------------------
  // extract_place_and_country
  // ---------------------------------------------------------------------

  predicate IsComma(c: char) { c == ',' }

  /**
   * `s.rsplit(",", maxsplit=1)` then `strip()` on each part: the place before
   * the last comma and the country after it, or no place when there is no comma.
   */
  function ExtractPlaceAndCountry(s: string): (r: (Option<string>, string))
    ensures r.0.Some? <==> exists k :: 0 <= k < |s| && s[k] == ','
  {
    match LastWhere(s, IsComma, 0, |s|)
    case Some(k) => (Some(Strip(s[..k])), Strip(s[k + 1..]))
    case None => (None, Strip(s))
  }

  /** "Thessaloniki, Greece": the place is what precedes the last comma, the country what follows it. */
  lemma PlaceAndCountrySplit(place: string, country: string)
    requires forall k :: 0 <= k < |country| ==> country[k] != ','
    ensures ExtractPlaceAndCountry(place + "," + country) == (Some(Strip(place)), Strip(country))
  {
    var s := place + "," + country;
    assert s[|place|] == ',';
    forall j | |place| < j < |s|
      ensures !IsComma(s[j])
    {
      assert s[j] == country[j - |place| - 1];
    }
    LastWhereUnique(s, IsComma, 0, |s|, |place|);
    assert s[..|place|] == place;
    assert s[|place| + 1..] == country;
  }

  /** "Botswana": without a comma the whole text is the country and there is no place. */
  lemma NoCommaMeansCountryOnly(s: string)
    requires forall k :: 0 <= k < |s| ==> s[k] != ','
    ensures ExtractPlaceAndCountry(s) == (None, Strip(s))
  {
  }

  /** The country never contains a comma: the split is at the last one. */
  lemma CountryHasNoComma(s: string)
    ensures var c := ExtractPlaceAndCountry(s).1; forall k :: 0 <= k < |c| ==> c[k] != ','
  {
    match LastWhere(s, IsComma, 0, |s|)
    case Some(k) =>
      var t := s[k + 1..];
      forall j | 0 <= j < |t|
        ensures t[j] != ','
      {
        assert t[j] == s[k + 1 + j];
        assert !IsComma(s[k + 1 + j]);
      }
      StripKeepsAbsent(t, ',');
    case None =>
      forall j | 0 <= j < |s|
        ensures s[j] != ','
      {
        assert !IsComma(s[j]);
      }
      StripKeepsAbsent(s, ',');
  }

  // ---------------------------------------------------------------------
  // Label dispatch
  // ---------------------------------------------------------------------

  datatype Label = FullName | DateOfBirth | PlaceOfBirth | Country | Position | DateOfDeath

  /** The header texts the rows are tested for, in the order of the `if`/`elif` chain. */
  const LabelKeys: seq<string> := ["Full name", "Date of birth", "Place of birth", "Country", "Position", "Date of death"]

  const Labels: seq<Label> := [FullName, DateOfBirth, PlaceOfBirth, Country, Position, DateOfDeath]

  /** The first label, in chain order, whose text the header contains. */
  function MatchLabel(headerText: string): Option<Label> {
    match FirstWhere(LabelKeys, key => Contains(headerText, key), 0)
    case Some(k) => Some(Labels[k])
    case None => None
  }

  /**
   * The chain in one statement: a header gets the `k`-th label exactly when
   * it contains the `k`-th text and none of the texts tested before it, and
   * no label when it contains none of the six.
   */
  lemma MatchLabelIsFirstContained(headerText: string, k: nat)
    requires k < |Labels|
    ensures MatchLabel(headerText) == Some(Labels[k]) <==>
      Contains(headerText, LabelKeys[k]) && forall j :: 0 <= j < k ==> !Contains(headerText, LabelKeys[j])
    ensures MatchLabel(headerText).None? <==> forall j :: 0 <= j < |LabelKeys| ==> !Contains(headerText, LabelKeys[j])
  {
    var P := key => Contains(headerText, key);
    var f := FirstWhere(LabelKeys, P, 0);
    if Contains(headerText, LabelKeys[k]) && forall j :: 0 <= j < k ==> !Contains(headerText, LabelKeys[j]) {
      assert P(LabelKeys[k]);
      FirstWhereUnique(LabelKeys, P, 0, k);
    }
    if f.Some? {
      assert P(LabelKeys[f.value]);
    } else {
      forall j | 0 <= j < |LabelKeys|
        ensures !Contains(headerText, LabelKeys[j])
      {
        assert !P(LabelKeys[j]);
      }
    }
  }

  /** The label a row is dispatched on: none when it lacks a header or a data cell, or matches no label. */
  function RowLabel(row: Row): (r: Option<Label>)
    ensures r.Some? ==> row.header.Some? && row.cells != []
  {
    if row.header.None? || row.cells == [] then None else MatchLabel(Strip(row.header.value.text))
  }

  /**
   * One row of the infobox loop: a row with both cells is dispatched on its
   * stripped header text, the data text being the first data cell's text
   * without footnote markers. A row without a label changes nothing; a row
   * fails only when it is the date-of-birth row and `extract_age` raises on
   * its text; and no row touches the fields filled outside the infobox pass.
   */
  function ApplyRow(info: PlayerInfo, row: Row, today: Date): (r: Result<PlayerInfo, DateError>)
    ensures RowLabel(row).None? ==> r == Ok(info)
    ensures RowLabel(row).Some? ==> r == ApplyLabel(info, RowLabel(row), DataText(row), today)
    ensures r.Err? ==> RowLabel(row) == Some(DateOfBirth) && ExtractAge(DataText(row), today).Err?
    ensures r.Ok? ==> SameOutsideInfobox(info, r.value)
  {
    if row.header.None? || row.cells == [] then Ok(info)
    else ApplyLabel(info, RowLabel(row), DataText(row), today)
  }

  /**
   * The `if`/`elif` chain body for the label matched. Each label writes its
   * own fields and no other: the full name, the date of birth with the age,
   * the place with the country, the country alone, the positions, or the
   * death flag. Only the date-of-birth branch can raise, through `extract_age`.
   */
  function ApplyLabel(info: PlayerInfo, tag: Option<Label>, text: string, today: Date): (r: Result<PlayerInfo, DateError>)
    ensures tag.None? ==> r == Ok(info)
    ensures tag == Some(FullName) ==> r.Ok? && r.value == info.(fullName := Some(text))
    ensures tag == Some(DateOfBirth) ==>
      match ExtractAge(text, today)
      case Ok(a) => r.Ok? && r.value == info.(dateOfBirth := ExtractDateOfBirth(text), age := AgeOf(a))
      case Err(e) => r == Err(e)
    ensures tag == Some(PlaceOfBirth) ==>
      r.Ok? && r.value == info.(placeOfBirth := ExtractPlaceAndCountry(text).0,
                                countryOfBirth := Some(ExtractPlaceAndCountry(text).1))
    ensures tag == Some(Country) ==> r.Ok? && r.value == info.(countryOfBirth := Some(text))
    ensures tag == Some(Position) ==> r.Ok? && r.value == info.(positions := Some(text))
    ensures tag == Some(DateOfDeath) ==> r.Ok? && r.value == info.(dead := true)
    ensures r.Err? ==> tag == Some(DateOfBirth) && ExtractAge(text, today).Err?
    ensures r.Ok? ==> SameOutsideInfobox(info, r.value)
  {
    match tag
    case None => Ok(info)
    case Some(FullName) => Ok(info.(fullName := Some(text)))
    case Some(DateOfBirth) =>
      var age :- ExtractAge(text, today);
      Ok(info.(dateOfBirth := ExtractDateOfBirth(text), age := AgeOf(age)))
    case Some(PlaceOfBirth) =>
      var (place, country) := ExtractPlaceAndCountry(text);
      Ok(info.(placeOfBirth := place, countryOfBirth := Some(country)))
    case Some(Country) => Ok(info.(countryOfBirth := Some(text)))
    case Some(Position) => Ok(info.(positions := Some(text)))
    case Some(DateOfDeath) => Ok(info.(dead := true))
  }

  /** The fields the infobox pass never writes: they come from elsewhere. */
  predicate SameOutsideInfobox(a: PlayerInfo, b: PlayerInfo) {
    && a.url == b.url && a.name == b.name && a.currentClub == b.currentClub
    && a.nationalTeam == b.nationalTeam && a.appsCurrentClub == b.appsCurrentClub
    && a.goalsCurrentClub == b.goalsCurrentClub && a.timestamp == b.timestamp
  }

  /** The data text of a row both of whose cells are present. */
  function DataText(row: Row): string
    requires row.cells != []
  {
    CleanText(row.cells[0].text)
  }

  /**
   * The loop over all rows: rows are applied in order and the first failure
   * ends the pass, which leaves the fields outside the infobox alone.
   */
  function DispatchRows(info: PlayerInfo, rows: seq<Row>, today: Date): (r: Result<PlayerInfo, DateError>)
    ensures r.Ok? ==> SameOutsideInfobox(info, r.value)
    decreases |rows|
  {
    if rows == [] then Ok(info)
    else
      var next :- ApplyRow(info, rows[0], today);
      DispatchRows(next, rows[1..], today)
  }

  /** Dispatching one more row is applying it to what the rows before it produced: a later row overwrites an earlier one. */
  lemma {:induction false} DispatchRowsAppend(info: PlayerInfo, rows: seq<Row>, row: Row, today: Date)
    ensures DispatchRows(info, rows + [row], today) ==
      match DispatchRows(info, rows, today)
      case Ok(v) => ApplyRow(v, row, today)
      case Err(e) => Err(e)
    decreases |rows|
  {
    if rows == [] {
      assert rows + [row] == [row];
    } else {
      assert (rows + [row])[1..] == rows[1..] + [row];
      match ApplyRow(info, rows[0], today)
      case Ok(next) => DispatchRowsAppend(next, rows[1..], row, today);
      case Err(_) =>
    }
  }

  // ---------------------------------------------------------------------
  // Which row each infobox field comes from
  // ---------------------------------------------------------------------

  /** The row is dispatched on one of `labels`. */
  predicate LabelledIn(row: Row, labels: set<Label>) {
    RowLabel(row).Some? && RowLabel(row).value in labels
  }

  /** The last of `rows` dispatched on one of `labels`: the row whose value a field written by them keeps. */
  function LastLabelled(rows: seq<Row>, labels: set<Label>): (r: Option<int>)
    ensures r.Some? ==> 0 <= r.value < |rows| && LabelledIn(rows[r.value], labels)
    ensures r.Some? ==> forall j :: r.value < j < |rows| ==> !LabelledIn(rows[j], labels)
    ensures r.None? ==> forall j :: 0 <= j < |rows| ==> !LabelledIn(rows[j], labels)
  {
    LastWhere(rows, row => LabelledIn(row, labels), 0, |rows|)
  }

  /** One more row is the last labelled one exactly when it carries one of the labels. */
  lemma LastLabelledAppend(rows: seq<Row>, row: Row, labels: set<Label>)
    ensures LastLabelled(rows + [row], labels) ==
      if LabelledIn(row, labels) then Some(|rows|) else LastLabelled(rows, labels)
  {
    var all := rows + [row];
    assert all[|rows|] == row;
    var l := LastLabelled(rows, labels);
    if !LabelledIn(row, labels) && l.Some? {
      assert all[l.value] == rows[l.value];
      forall j | l.value < j < |all|
        ensures !LabelledIn(all[j], labels)
      {
        if j < |rows| {
          assert all[j] == rows[j];
        }
      }
    } else if !LabelledIn(row, labels) {
      forall j | 0 <= j < |all|
        ensures !LabelledIn(all[j], labels)
      {
        if j < |rows| {
          assert all[j] == rows[j];
        }
      }
    }
  }

  /** The full name after `rows`: the last full-name row's text, else the name before the pass. */
  predicate FullNameFrom(info: PlayerInfo, rows: seq<Row>, r: PlayerInfo) {
    r.fullName == match LastLabelled(rows, {FullName})
                  case Some(k) => Some(DataText(rows[k]))
                  case None => info.fullName
  }

  /** The positions after `rows`: the last position row's text, else the positions before the pass. */
  predicate PositionsFrom(info: PlayerInfo, rows: seq<Row>, r: PlayerInfo) {
    r.positions == match LastLabelled(rows, {Position})
                   case Some(k) => Some(DataText(rows[k]))
                   case None => info.positions
  }

  /** The place of birth after `rows`: the place part of the last place-of-birth row. */
  predicate PlaceFrom(info: PlayerInfo, rows: seq<Row>, r: PlayerInfo) {
    r.placeOfBirth == match LastLabelled(rows, {PlaceOfBirth})
                      case Some(k) => ExtractPlaceAndCountry(DataText(rows[k])).0
                      case None => info.placeOfBirth
  }

  /** The country after `rows`: set by whichever of a country or a place-of-birth row comes last. */
  predicate CountryFrom(info: PlayerInfo, rows: seq<Row>, r: PlayerInfo) {
    r.countryOfBirth == match LastLabelled(rows, {PlaceOfBirth, Country})
                        case Some(k) =>
                          if RowLabel(rows[k]) == Some(Country) then Some(DataText(rows[k]))
                          else Some(ExtractPlaceAndCountry(DataText(rows[k])).1)
                        case None => info.countryOfBirth
  }

  /** The date of birth and the age after `rows`: both from the last date-of-birth row. */
  predicate BirthFrom(info: PlayerInfo, rows: seq<Row>, today: Date, r: PlayerInfo) {
    match LastLabelled(rows, {DateOfBirth})
    case Some(k) =>
      && r.dateOfBirth == ExtractDateOfBirth(DataText(rows[k]))
      && r.age.AgeOf? && ExtractAge(DataText(rows[k]), today) == Ok(r.age.age)
    case None => r.dateOfBirth == info.dateOfBirth && r.age == info.age
  }

  /** The dead flag after `rows`: set before the pass, or by some date-of-death row. */
  predicate DeadFrom(info: PlayerInfo, rows: seq<Row>, r: PlayerInfo) {
    r.dead == (info.dead || LastLabelled(rows, {DateOfDeath}).Some?)
  }

  /** Every infobox field of `r` is what the last row carrying its label gives, or is as in `info`. */
  predicate InfoboxFieldsFrom(info: PlayerInfo, rows: seq<Row>, today: Date, r: PlayerInfo) {
    && FullNameFrom(info, rows, r) && PositionsFrom(info, rows, r) && PlaceFrom(info, rows, r)
    && CountryFrom(info, rows, r) && BirthFrom(info, rows, today, r) && DeadFrom(info, rows, r)
  }

  /**
   * A pass that does not raise fills every infobox field from the last row
   * that writes it: a later row overwrites an earlier one, and a row writes
   * only its own label's fields.
   */
  lemma {:induction false} DispatchRowsFields(info: PlayerInfo, rows: seq<Row>, today: Date)
    ensures DispatchRows(info, rows, today).Ok? ==>
      InfoboxFieldsFrom(info, rows, today, DispatchRows(info, rows, today).value)
    decreases |rows|
  {
    if rows != [] && DispatchRows(info, rows, today).Ok? {
      var pre, x := rows[..|rows| - 1], rows[|rows| - 1];
      assert rows == pre + [x];
      DispatchRowsAppend(info, pre, x, today);
      DispatchRowsFields(info, pre, today);
      var v := DispatchRows(info, pre, today).value;
      var r := ApplyRow(v, x, today).value;
      RowFields(v, x, today, r);
      FullNameStep(info, pre, x, v, r);
      PositionsStep(info, pre, x, v, r);
      PlaceStep(info, pre, x, v, r);
      CountryStep(info, pre, x, v, r);
      BirthStep(info, pre, x, today, v, r);
      DeadStep(info, pre, x, v, r);
    }
  }

  /** Field by field, what one row that does not raise leaves: its label's value, or the field as it was. */
  lemma RowFields(v: PlayerInfo, x: Row, today: Date, r: PlayerInfo)
    requires ApplyRow(v, x, today) == Ok(r)
    ensures r.fullName == if RowLabel(x) == Some(FullName) then Some(DataText(x)) else v.fullName
    ensures r.positions == if RowLabel(x) == Some(Position) then Some(DataText(x)) else v.positions
    ensures r.placeOfBirth ==
      if RowLabel(x) == Some(PlaceOfBirth) then ExtractPlaceAndCountry(DataText(x)).0 else v.placeOfBirth
    ensures r.countryOfBirth ==
      if RowLabel(x) == Some(Country) then Some(DataText(x))
      else if RowLabel(x) == Some(PlaceOfBirth) then Some(ExtractPlaceAndCountry(DataText(x)).1)
      else v.countryOfBirth
    ensures r.dateOfBirth == if RowLabel(x) == Some(DateOfBirth) then ExtractDateOfBirth(DataText(x)) else v.dateOfBirth
    ensures RowLabel(x) == Some(DateOfBirth) ==> r.age.AgeOf? && ExtractAge(DataText(x), today) == Ok(r.age.age)
    ensures RowLabel(x) != Some(DateOfBirth) ==> r.age == v.age
    ensures r.dead == (v.dead || RowLabel(x) == Some(DateOfDeath))
  {
  }

  /** The rows before the last one are those of `pre`. */
  lemma PrefixRows(pre: seq<Row>, x: Row)
    ensures (pre + [x])[|pre|] == x
    ensures forall k :: 0 <= k < |pre| ==> (pre + [x])[k] == pre[k]
  {
  }

  /** One more row keeps the full name tied to the last row that writes it. */
  lemma FullNameStep(info: PlayerInfo, pre: seq<Row>, x: Row, v: PlayerInfo, r: PlayerInfo)
    requires FullNameFrom(info, pre, v)
    requires r.fullName == if RowLabel(x) == Some(FullName) then Some(DataText(x)) else v.fullName
    ensures FullNameFrom(info, pre + [x], r)
  {
    LastLabelledAppend(pre, x, {FullName});
    PrefixRows(pre, x);
  }

  /** One more row keeps the positions tied to the last row that writes it. */
  lemma PositionsStep(info: PlayerInfo, pre: seq<Row>, x: Row, v: PlayerInfo, r: PlayerInfo)
    requires PositionsFrom(info, pre, v)
    requires r.positions == if RowLabel(x) == Some(Position) then Some(DataText(x)) else v.positions
    ensures PositionsFrom(info, pre + [x], r)
  {
    LastLabelledAppend(pre, x, {Position});
    PrefixRows(pre, x);
  }

  /** One more row keeps the place of birth tied to the last row that writes it. */
  lemma PlaceStep(info: PlayerInfo, pre: seq<Row>, x: Row, v: PlayerInfo, r: PlayerInfo)
    requires PlaceFrom(info, pre, v)
    requires r.placeOfBirth ==
      if RowLabel(x) == Some(PlaceOfBirth) then ExtractPlaceAndCountry(DataText(x)).0 else v.placeOfBirth
    ensures PlaceFrom(info, pre + [x], r)
  {
    LastLabelledAppend(pre, x, {PlaceOfBirth});
    PrefixRows(pre, x);
  }

  /** One more row keeps the country tied to the last row that writes it. */
  lemma CountryStep(info: PlayerInfo, pre: seq<Row>, x: Row, v: PlayerInfo, r: PlayerInfo)
    requires CountryFrom(info, pre, v)
    requires r.countryOfBirth ==
      if RowLabel(x) == Some(Country) then Some(DataText(x))
      else if RowLabel(x) == Some(PlaceOfBirth) then Some(ExtractPlaceAndCountry(DataText(x)).1)
      else v.countryOfBirth
    ensures CountryFrom(info, pre + [x], r)
  {
    LastLabelledAppend(pre, x, {PlaceOfBirth, Country});
    PrefixRows(pre, x);
  }

  /** One more row keeps the date of birth and the age tied to the last row that writes it. */
  lemma BirthStep(info: PlayerInfo, pre: seq<Row>, x: Row, today: Date, v: PlayerInfo, r: PlayerInfo)
    requires BirthFrom(info, pre, today, v)
    requires r.dateOfBirth == if RowLabel(x) == Some(DateOfBirth) then ExtractDateOfBirth(DataText(x)) else v.dateOfBirth
    requires RowLabel(x) == Some(DateOfBirth) ==> r.age.AgeOf? && ExtractAge(DataText(x), today) == Ok(r.age.age)
    requires RowLabel(x) != Some(DateOfBirth) ==> r.age == v.age
    ensures BirthFrom(info, pre + [x], today, r)
  {
    LastLabelledAppend(pre, x, {DateOfBirth});
    PrefixRows(pre, x);
  }

  /** One more row keeps the dead flag tied to the last row that writes it. */
  lemma DeadStep(info: PlayerInfo, pre: seq<Row>, x: Row, v: PlayerInfo, r: PlayerInfo)
    requires DeadFrom(info, pre, v)
    requires r.dead == (v.dead || RowLabel(x) == Some(DateOfDeath))
    ensures DeadFrom(info, pre + [x], r)
  {
    LastLabelledAppend(pre, x, {DateOfDeath});
  }

  /**
   * The `for row in infobox.find_all("tr")` loop: applies the rows in order;
   * an exception from `extract_age` leaves the loop and the function.
   */
  method DispatchInfobox(info: PlayerInfo, rows: seq<Row>, today: Date) returns (r: Result<PlayerInfo, DateError>)
    ensures r == DispatchRows(info, rows, today)
  {
    var current := info;
    for i := 0 to |rows|
      invariant DispatchRows(info, rows[..i], today) == Ok(current)
    {
      var step := ApplyRow(current, rows[i], today);
      DispatchRowsAppend(info, rows[..i], rows[i], today);
      TakeOneMore(rows, i);
      if step.Err? {
        DispatchStopsAtFailure(info, rows, i + 1, today);
        return Err(step.error);
      }
      current := step.value;
    }
    assert rows[..|rows|] == rows;
    return Ok(current);
  }

  /** Once a prefix fails, the whole pass fails with the same error. */
  lemma {:induction false} DispatchStopsAtFailure(info: PlayerInfo, rows: seq<Row>, n: nat, today: Date)
    requires n <= |rows| && DispatchRows(info, rows[..n], today).Err?
    ensures DispatchRows(info, rows, today) == DispatchRows(info, rows[..n], today)
    decreases |rows|
  {
    assert n > 0;
    assert rows[..n][0] == rows[0];
    match ApplyRow(info, rows[0], today)
    case Ok(next) =>
      assert rows[..n][1..] == rows[1..][..n - 1];
      DispatchStopsAtFailure(next, rows[1..], n - 1, today);
    case Err(_) =>
  }
}
