/**
 * `scrape_text_based_info`: when a page has no infobox, the scraper reads
 * the page's running text with a handful of regular expressions. Each
 * `re.search` is modelled as the leftmost position at which the pattern
 * matches; a greedy group backs off from its longest run until the rest of
 * the pattern matches, a lazy group grows from one character.
 *
 * The dictionary it returns has a key only for what was found; here each
 * entry is an `Option`, `None` standing for a missing key.
 */
module Fallback {
  import opened Wrappers
  import opened Text
  import opened Dates

  datatype TextInfo = TextInfo(
    dateOfBirth: Option<string>,
    placeOfBirth: Option<string>,
    age: Option<int>,
    countryOfBirth: Option<string>,
    nationalTeam: Option<string>,
    positions: Option<string>,
    currentClub: Option<string>)

  // ---------------------------------------------------------------------
  // Date of birth: three patterns, tried in order
  // ---------------------------------------------------------------------

  /**
   * `born on (D Month YYYY)`, `\b(D Month YYYY)\b` and `\((D Month YYYY)\)`,
   * the date being `\d{1,2} [A-Za-z]+ \d{4}` with single spaces.
   */
  datatype DobPattern = BornOn | Bare | Parenthesised

  const DobPatterns: seq<DobPattern> := [BornOn, Bare, Parenthesised]

  /** Where the date group of pattern `p` begins, for a match that begins at `i`. */
  function GroupStart(p: DobPattern, i: nat): nat {
    match p
    case BornOn => i + 8
    case Bare => i
    case Parenthesised => i + 1
  }

  /** Pattern `p` matches at `i`. */
  predicate DobMatchAt(s: string, p: DobPattern, i: int) {
    && 0 <= i
    && DmyAt(s, GroupStart(p, i), false).Some?
    && var e := DmyAt(s, GroupStart(p, i), false).value.end;
       match p
       case BornOn => OccursAt(s, i, "born on ")
       case Bare => BoundaryBefore(s, i) && BoundaryAfter(s, e)
       case Parenthesised => OccursAt(s, i, "(") && OccursAt(s, e, ")")
  }

  /** `regex.search(text)` for pattern `p`: the pieces of the date group of the leftmost match. */
  function DobSearch(s: string, p: DobPattern): Option<Parts> {
    match First(i => DobMatchAt(s, p, i), 0, |s| + 1)
    case Some(i) => DmyAt(s, GroupStart(p, i), false)
    case None => None
  }

  /** The date pattern `p` yields: its leftmost match, read with `strptime(..., "%d %B %Y")`. */
  function DobBy(s: string, p: DobPattern): (r: Option<Date>)
    ensures r.Some? ==> ValidDate(r.value)
  {
    match DobSearch(s, p)
    case Some(parts) => ParseParts(parts)
    case None => None
  }

  /** The patterns tried in turn: the first one that yields a date wins. */
  function DobFrom(s: string, patterns: seq<DobPattern>): (r: Option<Date>)
    ensures r.Some? ==> ValidDate(r.value)
  {
    match FirstWhere(patterns, p => DobBy(s, p).Some?, 0)
    case Some(k) => DobBy(s, patterns[k])
    case None => None
  }

  /**
   * The pattern loop in one statement: the date found is the one the first
   * pattern that yields a date yields (a pattern whose match does not parse
   * only passes the turn on), and there is none when no pattern yields one.
   */
  lemma DobFromIsFirstYield(s: string, patterns: seq<DobPattern>, d: Date)
    ensures DobFrom(s, patterns) == Some(d) <==>
      exists k :: 0 <= k < |patterns| && DobBy(s, patterns[k]) == Some(d)
                  && forall j :: 0 <= j < k ==> DobBy(s, patterns[j]).None?
    ensures DobFrom(s, patterns).None? <==> forall k :: 0 <= k < |patterns| ==> DobBy(s, patterns[k]).None?
  {
    var P := p => DobBy(s, p).Some?;
    if exists k :: 0 <= k < |patterns| && DobBy(s, patterns[k]) == Some(d)
                   && forall j :: 0 <= j < k ==> DobBy(s, patterns[j]).None? {
      var k :| 0 <= k < |patterns| && DobBy(s, patterns[k]) == Some(d)
               && forall j :: 0 <= j < k ==> DobBy(s, patterns[j]).None?;
      assert P(patterns[k]);
      forall j | 0 <= j < k
        ensures !P(patterns[j])
      {
      }
      FirstWhereUnique(patterns, P, 0, k);
    }
    match FirstWhere(patterns, P, 0)
    case Some(k) =>
      assert P(patterns[k]);
      forall j | 0 <= j < k
        ensures DobBy(s, patterns[j]).None?
      {
        assert !P(patterns[j]);
      }
    case None =>
      forall j | 0 <= j < |patterns|
        ensures DobBy(s, patterns[j]).None?
      {
        assert !P(patterns[j]);
      }
  }

  // ---------------------------------------------------------------------
  // Place of birth
  // ---------------------------------------------------------------------

  /** `[A-Za-z\s,]`. */
  predicate LetterSpaceComma(c: char) { IsLetter(c) || IsSpace(c) || c == ',' }

  /** `born in ([A-Za-z\s,]+)` matches at `i`. */
  predicate PlaceMatchAt(s: string, i: int) {
    OccursAt(s, i, "born in ") && Run(s, i + 8, LetterSpaceComma) > 0
  }

  /** The group of the leftmost `born in ([A-Za-z\s,]+)` match: the longest run of those characters. */
  function PlaceOfBirth(s: string): (r: Option<string>)
    ensures r.Some? ==> |r.value| > 0 && forall k :: 0 <= k < |r.value| ==> LetterSpaceComma(r.value[k])
  {
    match First(i => PlaceMatchAt(s, i), 0, |s| + 1)
    case Some(i) =>
      var n := Run(s, i + 8, LetterSpaceComma);
      var t := s[i + 8..i + 8 + n];
      RunFacts(s, i + 8, LetterSpaceComma);
      assert forall k :: 0 <= k < n ==> t[k] == s[i + 8 + k];
      Some(t)
    case None => None
  }

  /**
   * "born in Kalamata, Greece." gives "Kalamata, Greece": a place written
   * right after "born in " is read back whole, up to the first character
   * outside `[A-Za-z\s,]`.
   */
  lemma PlaceRecognised(w: string, rest: string)
    requires |w| > 0 && forall k :: 0 <= k < |w| ==> LetterSpaceComma(w[k])
    requires rest == [] || !LetterSpaceComma(rest[0])
    ensures PlaceOfBirth("born in " + w + rest) == Some(w)
  {
    var s := "born in " + w + rest;
    assert s[0..] == "born in " + (w + rest);
    SuffixSplit(s, 0, "born in ", w + rest);
    Piece(s, 8, w, rest, LetterSpaceComma);
    assert PlaceMatchAt(s, 0);
    FirstIsUnique(i => PlaceMatchAt(s, i), 0, |s| + 1, 0);
  }

  // ---------------------------------------------------------------------
  // Greedy groups between two literals
  // ---------------------------------------------------------------------

  /** `[A-Za-z\s]`. */
  predicate LetterOrSpace(c: char) { IsLetter(c) || IsSpace(c) }

  /**
   * `prefix([cls]+)suffix` matched at `i`: the group takes the longest run of
   * `cls` characters and backs off one at a time until `suffix` follows it.
   * Gives the group's length.
   */
  function GreedyGroupAt(s: string, i: int, prefix: string, cls: char -> bool, suffix: string): (r: Option<int>)
    ensures r.Some? ==> OccursAt(s, i, prefix) && r.value >= 1 && OccursAt(s, i + |prefix| + r.value, suffix)
    ensures r.Some? ==> r.value <= Run(s, i + |prefix|, cls)
  {
    if !OccursAt(s, i, prefix) then None
    else
      var g := i + |prefix|;
      Last(L => OccursAt(s, g + L, suffix), 1, Run(s, g, cls) + 1)
  }

  /** `re.search` for `prefix([cls]+)suffix`: the group of the leftmost match. */
  function GreedySearch(s: string, prefix: string, cls: char -> bool, suffix: string): (r: Option<string>)
    ensures r.Some? ==> |r.value| > 0 && forall k :: 0 <= k < |r.value| ==> cls(r.value[k])
    ensures r.Some? ==> Contains(s, prefix + r.value + suffix)
  {
    match First(i => GreedyGroupAt(s, i, prefix, cls, suffix).Some?, 0, |s| + 1)
    case Some(i) =>
      var g := i + |prefix|;
      var n := GreedyGroupAt(s, i, prefix, cls, suffix).value;
      GreedyPieces(s, i, prefix, cls, suffix, n);
      var w := s[g..g + n];
      assert OccursAt(s, i, prefix + w + suffix);
      Some(w)
    case None => None
  }

  /** The pieces a greedy match at `i` with a group of length `n` is made of. */
  lemma GreedyPieces(s: string, i: int, prefix: string, cls: char -> bool, suffix: string, n: int)
    requires GreedyGroupAt(s, i, prefix, cls, suffix) == Some(n)
    ensures var g := i + |prefix|;
      && 0 <= i && g + n + |suffix| <= |s|
      && (var t := s[g..g + n]; forall k :: 0 <= k < n ==> cls(t[k]))
      && OccursAt(s, i, prefix + s[g..g + n] + suffix)
  {
    var g := i + |prefix|;
    RunFacts(s, g, cls);
    var t := s[g..g + n];
    assert forall k :: 0 <= k < n ==> t[k] == s[g + k];
    assert s[i..g + n + |suffix|] == s[i..g] + s[g..g + n] + s[g + n..g + n + |suffix|];
  }

  /**
   * A group written between the two literals is read back whole when the
   * text is exactly prefix, group, suffix and the suffix is made of group
   * characters (so the greedy run swallows it and has to give it back).
   */
  lemma GreedyRecognised(prefix: string, w: string, suffix: string, cls: char -> bool)
    requires |w| > 0 && forall k :: 0 <= k < |w| ==> cls(w[k])
    requires forall k :: 0 <= k < |suffix| ==> cls(suffix[k])
    ensures GreedySearch(prefix + w + suffix, prefix, cls, suffix) == Some(w)
  {
    var s := prefix + w + suffix;
    GreedyGroupAtStart(prefix, w, suffix, cls);
    FirstIsUnique(i => GreedyGroupAt(s, i, prefix, cls, suffix).Some?, 0, |s| + 1, 0);
  }

  /** In prefix, group, suffix the greedy group at the start backs off to exactly the group. */
  lemma GreedyGroupAtStart(prefix: string, w: string, suffix: string, cls: char -> bool)
    requires |w| > 0 && forall k :: 0 <= k < |w| ==> cls(w[k])
    requires forall k :: 0 <= k < |suffix| ==> cls(suffix[k])
    ensures var s := prefix + w + suffix;
      && GreedyGroupAt(s, 0, prefix, cls, suffix) == Some(|w|)
      && s[|prefix|..|prefix| + |w|] == w
  {
    var s := prefix + w + suffix;
    var g := |prefix|;
    var ws := w + suffix;
    assert s[0..] == prefix + ws;
    SuffixSplit(s, 0, prefix, ws);
    forall k | 0 <= k < |ws|
      ensures cls(ws[k])
    {
      if k < |w| { assert ws[k] == w[k]; } else { assert ws[k] == suffix[k - |w|]; }
    }
    Piece(s, g, ws, [], cls);
    SuffixSplit(s, g, w, suffix);
    var P := L => OccursAt(s, g + L, suffix);
    assert P(|w|);
    forall j | |w| < j < Run(s, g, cls) + 1
      ensures !P(j)
    {
      assert j <= |ws|;
      assert g + j + |suffix| > |s|;
      assert !OccursAt(s, g + j, suffix);
    }
    LastIsUnique(P, 1, Run(s, g, cls) + 1, |w|);
  }

  /** `is a ([A-Za-z\s,]+) footballer`, whose group the scraper stores as the country of birth. */
  function CountryPhrase(s: string): (r: Option<string>)
    ensures r.Some? ==> Contains(s, "is a " + r.value + " footballer")
    ensures r.Some? ==> forall k :: 0 <= k < |r.value| ==> LetterSpaceComma(r.value[k])
  {
    GreedySearch(s, "is a ", LetterSpaceComma, " footballer")
  }

  /**
   * "is a Greek professional footballer" gives "Greek professional": the
   * greedy group keeps every word before " footballer".
   */
  lemma CountryPhraseRecognised(w: string)
    requires |w| > 0 && forall k :: 0 <= k < |w| ==> LetterSpaceComma(w[k])
    ensures CountryPhrase("is a " + w + " footballer") == Some(w)
  {
    GreedyRecognised("is a ", w, " footballer", LetterSpaceComma);
  }

  /** `has represented the ([A-Za-z\s]+) national team`. */
  function NationalTeamPhrase(s: string): (r: Option<string>)
    ensures r.Some? ==> Contains(s, "has represented the " + r.value + " national team")
    ensures r.Some? ==> forall k :: 0 <= k < |r.value| ==> LetterOrSpace(r.value[k])
  {
    GreedySearch(s, "has represented the ", LetterOrSpace, " national team")
  }

  lemma NationalTeamRecognised(w: string)
    requires |w| > 0 && forall k :: 0 <= k < |w| ==> LetterOrSpace(w[k])
    ensures NationalTeamPhrase("has represented the " + w + " national team") == Some(w)
  {
    GreedyRecognised("has represented the ", w, " national team", LetterOrSpace);
  }

  // ---------------------------------------------------------------------
  // Positions and current club
  // ---------------------------------------------------------------------

  /** `[\w\s]`. */
  predicate WordOrSpace(c: char) { IsWordChar(c) || IsSpace(c) }

  /** `[\w\s\.\-]`. */
  predicate ClubChar(c: char) { WordOrSpace(c) || c == '.' || c == '-' }

  /** Where the lazy club group stops growing: a period, or a character it cannot take. */
  predicate EndsClub(c: char) { c == '.' || !ClubChar(c) }

  /**
   * `([\w\s\.\-]+?)(?=\.)` at `g`: the group takes one character, then grows
   * one at a time until a period follows it. Gives the group's length.
   */
  function LazyClubAt(s: string, g: int): (r: Option<int>)
    ensures r.Some? ==> 0 <= g && r.value >= 1 && g + r.value < |s| && s[g + r.value] == '.'
    ensures r.Some? ==> forall k :: g <= k < g + r.value ==> ClubChar(s[k])
    ensures r.Some? ==> forall k :: g < k < g + r.value ==> s[k] != '.'
  {
    if g < 0 || g >= |s| || !ClubChar(s[g]) then None
    else
      match FirstWhere(s, EndsClub, g + 1)
      case Some(m) => if s[m] == '.' then Some(m - g) else None
      case None => None
  }

  /** ` for local club ` at `e`, followed by a club group. */
  predicate ClubTailAt(s: string, e: int) {
    OccursAt(s, e, " for local club ") && LazyClubAt(s, e + 16).Some?
  }

  /**
   * `plays as a ([\w\s]+) for local club ([\w\s\.\-]+?)(?=\.)` at `i`: the
   * greedy first group backs off until the literal and a lazy club group
   * follow it. Gives the two groups' lengths.
   */
  function ClubMatchAt(s: string, i: int): (r: Option<(int, int)>)
    ensures r.Some? ==> 0 <= i && r.value.0 >= 1 && i + 27 + r.value.0 <= |s|
    ensures r.Some? ==> LazyClubAt(s, i + 27 + r.value.0) == Some(r.value.1)
  {
    if !OccursAt(s, i, "plays as a ") then None
    else
      var g := i + 11;
      match Last(L => ClubTailAt(s, g + L), 1, Run(s, g, WordOrSpace) + 1)
      case Some(L) =>
        assert ClubTailAt(s, g + L);
        Some((L, LazyClubAt(s, g + L + 16).value))
      case None => None
  }

  /** The positions and the club of the leftmost match, each stripped. */
  function ClubMatch(s: string): (r: Option<(string, string)>)
    ensures r.Some? ==> forall k :: 1 <= k < |r.value.1| ==> r.value.1[k] != '.'
  {
    match First(i => ClubMatchAt(s, i).Some?, 0, |s| + 1)
    case Some(i) =>
      var m := ClubMatchAt(s, i).value;
      Some(ClubGroups(s, i, m.0, m.1))
    case None => None
  }

  /** The two groups of a match at `i` whose groups are `a` and `b` long, each stripped. */
  function ClubGroups(s: string, i: int, a: int, b: int): (r: (string, string))
    requires 0 <= i && a >= 1 && i + 27 + a <= |s|
    requires LazyClubAt(s, i + 27 + a) == Some(b)
    ensures forall k :: 1 <= k < |r.1| ==> r.1[k] != '.'
  {
    var g2 := i + 27 + a;
    ClubGroupPeriods(s, g2, b);
    (Strip(s[i + 11..i + 11 + a]), Strip(s[g2..g2 + b]))
  }

  /** Only the first character of the club group can be a period, and stripping keeps that so. */
  lemma ClubGroupPeriods(s: string, g: int, n: int)
    requires LazyClubAt(s, g) == Some(n)
    ensures 0 <= g && g + n <= |s|
    ensures var c := Strip(s[g..g + n]); forall k :: 1 <= k < |c| ==> c[k] != '.'
  {
    var t := s[g..g + n];
    StripByFacts(t, IsSpace);
    var a, b :| 0 <= a <= b <= |t| && Strip(t) == t[a..b];
    var c := Strip(t);
    forall k | 1 <= k < |c|
      ensures c[k] != '.'
    {
      assert c[k] == t[a + k] == s[g + a + k];
    }
  }

  // ---------------------------------------------------------------------
  // The whole function
  // ---------------------------------------------------------------------

  /** What `scrape_text_based_info` returns for the page text `text`, `today` standing for `datetime.today()`. */
  function TextBasedInfo(text: string, today: Date): (r: TextInfo)
    ensures r.age.Some? <==> r.dateOfBirth.Some?
    ensures r.dateOfBirth.Some? <==> DobFrom(text, DobPatterns).Some?
    ensures r.dateOfBirth.Some? ==>
      && DobFrom(text, DobPatterns).Some?
      && ParseYmd(r.dateOfBirth.value) == DobFrom(text, DobPatterns)
      && r.age == Some(AgeOn(DobFrom(text, DobPatterns).value, today))
    ensures r.placeOfBirth == PlaceOfBirth(text) && r.countryOfBirth == CountryPhrase(text)
    ensures r.nationalTeam == NationalTeamPhrase(text)
    ensures r.positions.Some? <==> ClubMatch(text).Some?
    ensures ClubMatch(text).Some? ==> r.positions == Some(ClubMatch(text).value.0) && r.currentClub == Some(ClubMatch(text).value.1)
    ensures ClubMatch(text).None? ==> r.currentClub.None?
  {
    var dob := DobFrom(text, DobPatterns);
    var club := ClubMatch(text);
    var dobText := if dob.Some? then Some(FormatIso(dob.value)) else None;
    var age := if dob.Some? then (FormatIsoParses(dob.value); Some(CalculateAgeFromDob(FormatIso(dob.value), today).value)) else None;
    TextInfo(dobText, PlaceOfBirth(text), age, CountryPhrase(text), NationalTeamPhrase(text),
             if club.Some? then Some(club.value.0) else None,
             if club.Some? then Some(club.value.1) else None)
  }

  /**
   * The pattern loop of `scrape_text_based_info`: a pattern whose match does
   * not parse is skipped with `continue`, the first that parses ends the
   * loop with `break`.
   */
  method FindDateOfBirth(text: string) returns (dob: Option<Date>)
    ensures dob == DobFrom(text, DobPatterns)
  {
    dob := None;
    ghost var P := p => DobBy(text, p).Some?;
    for k := 0 to |DobPatterns|
      invariant dob.None? && FirstWhere(DobPatterns, P, k) == FirstWhere(DobPatterns, P, 0)
    {
      var m := DobSearch(text, DobPatterns[k]);
      if m.Some? {
        var parsed := ParseParts(m.value);
        if parsed.Some? {
          assert P(DobPatterns[k]);
          dob := parsed;
          break;
        }
        assert !P(DobPatterns[k]);
        continue;
      }
      assert !P(DobPatterns[k]);
    }
  }

  /** `scrape_text_based_info`: the date-of-birth loop, then the other searches in order. */
  method ScrapeTextBasedInfo(text: string, today: Date) returns (info: TextInfo)
    ensures info == TextBasedInfo(text, today)
  {
    var dob := FindDateOfBirth(text);
    var dobText: Option<string> := None;
    var age: Option<int> := None;
    if dob.Some? {
      dobText := Some(FormatIso(dob.value));
      FormatIsoParses(dob.value);
      var a := CalculateAgeFromDob(dobText.value, today);
      age := Some(a.value);
    }
    var positions: Option<string> := None;
    var currentClub: Option<string> := None;
    var club := ClubMatch(text);
    if club.Some? {
      positions := Some(club.value.0);
      currentClub := Some(club.value.1);
    }
    info := TextInfo(dobText, PlaceOfBirth(text), age, CountryPhrase(text), NationalTeamPhrase(text),
                     positions, currentClub);
  }
}
