/**
 * `is_football_player`: a page is a footballer's page when its infobox text
 * mentions one of five football words, or when one of its category boxes
 * mentions "footballers" (both compared in lower case).
 */
module Classifier {
  import opened Wrappers
  import opened Text
  import opened Page

  const FootballKeywords: seq<string> := ["football", "soccer", "midfielder", "forward", "defender"]

  const CategoryKeyword: string := "footballers"

  /** `any(k in text for k in keywords)`, evaluated left to right. */
  function MentionsAny(text: string, keywords: seq<string>): bool
    decreases |keywords|
  {
    if keywords == [] then false
    else Contains(text, keywords[0]) || MentionsAny(text, keywords[1..])
  }

  /** `any(keyword in c.lower() for c in categories)`. */
  function AnyCategoryMentions(categories: seq<string>, keyword: string): bool
    decreases |categories|
  {
    if categories == [] then false
    else Contains(Lower(categories[0]), keyword) || AnyCategoryMentions(categories[1..], keyword)
  }

  /** The infobox test, then the category test. */
  function IsFootballPlayer(p: WikiPage): (r: bool)
    ensures r ==> p.infobox.Some? || p.categories != []
  {
    || (p.infobox.Some? && MentionsAny(Lower(p.infobox.value.text), FootballKeywords))
    || (p.categories != [] && AnyCategoryMentions(p.categories, CategoryKeyword))
  }

  lemma {:induction false} MentionsAnyIff(text: string, keywords: seq<string>)
    ensures MentionsAny(text, keywords) <==> exists k :: 0 <= k < |keywords| && Contains(text, keywords[k])
    decreases |keywords|
  {
    if keywords != [] {
      MentionsAnyIff(text, keywords[1..]);
      if exists k :: 0 <= k < |keywords| && Contains(text, keywords[k]) {
        var k :| 0 <= k < |keywords| && Contains(text, keywords[k]);
        if k > 0 {
          assert keywords[1..][k - 1] == keywords[k];
        }
      }
      if exists k :: 0 <= k < |keywords| - 1 && Contains(text, keywords[1..][k]) {
        var k :| 0 <= k < |keywords| - 1 && Contains(text, keywords[1..][k]);
        assert keywords[k + 1] == keywords[1..][k];
      }
    }
  }

  lemma {:induction false} AnyCategoryMentionsIff(categories: seq<string>, keyword: string)
    ensures AnyCategoryMentions(categories, keyword)
            <==> exists k :: 0 <= k < |categories| && Contains(Lower(categories[k]), keyword)
    decreases |categories|
  {
    if categories != [] {
      AnyCategoryMentionsIff(categories[1..], keyword);
      if exists k :: 0 <= k < |categories| && Contains(Lower(categories[k]), keyword) {
        var k :| 0 <= k < |categories| && Contains(Lower(categories[k]), keyword);
        if k > 0 {
          assert categories[1..][k - 1] == categories[k];
        }
      }
      if exists k :: 0 <= k < |categories| - 1 && Contains(Lower(categories[1..][k]), keyword) {
        var k :| 0 <= k < |categories| - 1 && Contains(Lower(categories[1..][k]), keyword);
        assert categories[k + 1] == categories[1..][k];
      }
    }
  }

  /**
   * The classification in one statement: a page counts exactly when one of
   * the five words occurs in its lower-cased infobox text, or "footballers"
   * occurs in one of its lower-cased category texts.
   */
  lemma IsFootballPlayerIff(p: WikiPage)
    ensures IsFootballPlayer(p) <==>
      || (p.infobox.Some? && exists k :: 0 <= k < |FootballKeywords| && Contains(Lower(p.infobox.value.text), FootballKeywords[k]))
      || (exists k :: 0 <= k < |p.categories| && Contains(Lower(p.categories[k]), CategoryKeyword))
  {
    if p.infobox.Some? {
      MentionsAnyIff(Lower(p.infobox.value.text), FootballKeywords);
    }
    AnyCategoryMentionsIff(p.categories, CategoryKeyword);
  }

  /** One keyword anywhere in the lower-cased infobox text is enough, whatever the categories say. */
  lemma KeywordCaseIgnored(p: WikiPage, k: nat)
    requires p.infobox.Some? && k < |FootballKeywords|
    requires Contains(Lower(p.infobox.value.text), FootballKeywords[k])
    ensures IsFootballPlayer(p)
  {
    MentionsAnyIff(Lower(p.infobox.value.text), FootballKeywords);
  }
}
