/**
 * The two bracket strippers of the scraper, written as the left-to-right
 * scan that `re.sub` performs: at each position either the pattern matches
 * (and the match is dropped, the scan resuming after it) or the character is
 * kept (and the scan moves on by one).
 *
 * `clean_text` removes `\[.*?\]` (footnote markers such as "[1]"), where `.`
 * does not cross a line break; `remove_text_in_brackets` removes
 * `\s*\[.*?\]|\s*\([^)]*\)`, i.e. the same groups and parenthesised groups,
 * together with the whitespace in front of them. Both then `strip()`.
 */
module Brackets {
  import opened Wrappers
  import opened Text

  /**
   * The index of the `]` that closes a `[` at `j`: the first `]` or line
   * break after `j` decides, since the lazy `.*?` cannot cross a line break.
   */
  function SquareClose(s: string, j: int): (r: Option<int>)
    ensures r.Some? ==> 0 <= j < r.value < |s| && s[r.value] == ']'
  {
    if !(0 <= j < |s| && s[j] == '[') then None
    else
      match First(k => 0 <= k < |s| && (s[k] == ']' || s[k] == '\n'), j + 1, |s|)
      case Some(k) => if s[k] == ']' then Some(k) else None
      case None => None
  }

  /** The length of a `\[.*?\]` match at the start of `s`, if there is one. */
  function SquareGroupLen(s: string): (r: Option<nat>)
    ensures r.Some? ==> 2 <= r.value <= |s| && s[0] == '[' && s[r.value - 1] == ']'
  {
    match SquareClose(s, 0)
    case Some(k) => Some(k + 1)
    case None => None
  }

  /** `re.sub(r"\[.*?\]", "", s)`. */
  function StripSquareGroups(s: string): (r: string)
    ensures |r| <= |s|
    decreases |s|
  {
    if s == [] then []
    else
      match SquareGroupLen(s)
      case Some(n) => StripSquareGroups(s[n..])
      case None => [s[0]] + StripSquareGroups(s[1..])
  }

  /** `clean_text`: drop the `[...]` groups, then strip. */
  function CleanText(s: string): (r: string)
    ensures |r| <= |s|
    ensures r == [] || (!IsSpace(r[0]) && !IsSpace(r[|r| - 1]))
  {
    StripByFacts(StripSquareGroups(s), IsSpace);
    Strip(StripSquareGroups(s))
  }

  /** The index of the first `)` after a `(` at `j`: `[^)]*` crosses line breaks. */
  function ParenClose(s: string, j: int): (r: Option<int>)
    ensures r.Some? ==> 0 <= j < r.value < |s| && s[r.value] == ')'
  {
    if !(0 <= j < |s| && s[j] == '(') then None
    else First(k => 0 <= k < |s| && s[k] == ')', j + 1, |s|)
  }

  /**
   * The length of a `\s*\[.*?\]|\s*\([^)]*\)` match at the start of `s`.
   * The greedy `\s*` never has to give characters back: what follows the
   * whitespace run is the bracket or nothing matches.
   */
  function BracketGroupLen(s: string): (r: Option<nat>)
    ensures r.Some? ==> 1 <= r.value <= |s|
  {
    var w := Run(s, 0, IsSpace);
    match SquareClose(s, w)
    case Some(k) => Some(k + 1)
    case None =>
      match ParenClose(s, w)
      case Some(k) => Some(k + 1)
      case None => None
  }

  /** `re.sub(r"\s*\[.*?\]|\s*\([^)]*\)", "", s)`. */
  function StripBracketGroups(s: string): (r: string)
    ensures |r| <= |s|
    decreases |s|
  {
    if s == [] then []
    else
      match BracketGroupLen(s)
      case Some(n) => StripBracketGroups(s[n..])
      case None => [s[0]] + StripBracketGroups(s[1..])
  }

  /** `remove_text_in_brackets`: drop both kinds of groups with their leading whitespace, then strip. */
  function RemoveTextInBrackets(s: string): (r: string)
    ensures |r| <= |s|
    ensures r == [] || (!IsSpace(r[0]) && !IsSpace(r[|r| - 1]))
  {
    StripByFacts(StripBracketGroups(s), IsSpace);
    Strip(StripBracketGroups(s))
  }

  // ---------------------------------------------------------------------
  // What the strippers keep and what they drop
  // ---------------------------------------------------------------------

  /** Text without `[` passes through the square-group stripper unchanged, in front of anything. */
  lemma {:induction false} PlainPrefixKept(x: string, t: string)
    requires forall k :: 0 <= k < |x| ==> x[k] != '['
    ensures StripSquareGroups(x + t) == x + StripSquareGroups(t)
    decreases |x|
  {
    if x != [] {
      SquareStep(x, t);
      PlainPrefixKept(x[1..], t);
      ConsAppend(x[0], x[1..], StripSquareGroups(t));
      assert x == [x[0]] + x[1..];
    } else {
      assert x + t == t;
    }
  }

  /** One kept character of `PlainPrefixKept`. */
  lemma SquareStep(x: string, t: string)
    requires x != [] && x[0] != '['
    ensures StripSquareGroups(x + t) == [x[0]] + StripSquareGroups(x[1..] + t)
  {
    var s := x + t;
    assert s[0] == x[0] && SquareGroupLen(s).None?;
    assert s[1..] == x[1..] + t;
  }

  /** `clean_text` on text without `[` is plain `strip()`. */
  lemma CleanTextWithoutGroups(s: string)
    requires forall k :: 0 <= k < |s| ==> s[k] != '['
    ensures CleanText(s) == Strip(s)
  {
    PlainPrefixKept(s, []);
    assert s + [] == s;
  }

  /** A footnote marker "[...]" on one line is dropped, and the scan resumes after it. */
  lemma SquareGroupDropped(y: string, z: string)
    requires forall k :: 0 <= k < |y| ==> y[k] != ']' && y[k] != '\n'
    ensures StripSquareGroups("[" + y + "]" + z) == StripSquareGroups(z)
  {
    var s := "[" + y + "]" + z;
    assert s[|y| + 1] == ']';
    forall k | 1 <= k < |y| + 1
      ensures !(0 <= k < |s| && (s[k] == ']' || s[k] == '\n'))
    {
      assert s[k] == y[k - 1];
    }
    FirstIsUnique(k => 0 <= k < |s| && (s[k] == ']' || s[k] == '\n'), 1, |s|, |y| + 1);
    assert s[|y| + 2..] == z;
  }

  /** "Mohamed Salah[1]": the name survives `clean_text` and the marker does not. */
  lemma FootnoteRemoved(x: string, y: string)
    requires forall k :: 0 <= k < |x| ==> x[k] != '['
    requires forall k :: 0 <= k < |y| ==> y[k] != ']' && y[k] != '\n'
    ensures CleanText(x + ("[" + y + "]")) == Strip(x)
  {
    PlainPrefixKept(x, "[" + y + "]");
    SquareGroupDropped(y, []);
    assert "[" + y + "]" + [] == "[" + y + "]";
    assert x + [] == x;
  }

  /** No bracket of either kind opens at the start of `s`, and the whitespace run ends at a non-bracket. */
  predicate OpensNoGroup(s: string) {
    var w := Run(s, 0, IsSpace);
    w >= |s| || (s[w] != '[' && s[w] != '(')
  }

  /**
   * Text without brackets that does not end in whitespace passes through the
   * bracket stripper unchanged, in front of anything.
   */
  lemma {:induction false} PlainTextKept(x: string, t: string)
    requires forall k :: 0 <= k < |x| ==> x[k] != '[' && x[k] != '('
    requires x == [] || !IsSpace(x[|x| - 1])
    ensures StripBracketGroups(x + t) == x + StripBracketGroups(t)
    decreases |x|
  {
    if x != [] {
      BracketStep(x, t);
      var y := x[1..];
      assert forall k :: 0 <= k < |y| ==> y[k] == x[k + 1];
      assert y != [] ==> y[|y| - 1] == x[|x| - 1];
      PlainTextKept(y, t);
      var u := StripBracketGroups(t);
      ConsAppend(x[0], y, u);
      assert x == [x[0]] + y;
    } else {
      assert x + t == t;
    }
  }

  /** One kept character of `PlainTextKept`. */
  lemma BracketStep(x: string, t: string)
    requires x != []
    requires forall k :: 0 <= k < |x| ==> x[k] != '[' && x[k] != '('
    requires !IsSpace(x[|x| - 1])
    ensures StripBracketGroups(x + t) == [x[0]] + StripBracketGroups(x[1..] + t)
  {
    var s := x + t;
    NoGroupInside(x, t);
    assert s[0] == x[0];
    assert s[1..] == x[1..] + t;
  }

  /** The whitespace run at the start of `x + t` stays inside `x` and ends at a non-bracket. */
  lemma NoGroupInside(x: string, t: string)
    requires x != []
    requires forall k :: 0 <= k < |x| ==> x[k] != '[' && x[k] != '('
    requires !IsSpace(x[|x| - 1])
    ensures OpensNoGroup(x + t)
    ensures BracketGroupLen(x + t).None?
  {
    var s := x + t;
    var w := Run(s, 0, IsSpace);
    RunFacts(s, 0, IsSpace);
    assert s[|x| - 1] == x[|x| - 1];
    assert w < |x|;
    assert s[w] == x[w];
  }

  /** "Mohamed Salah (footballer)": the name survives `remove_text_in_brackets` and the disambiguator does not. */
  lemma DisambiguatorRemoved(x: string, y: string)
    requires forall k :: 0 <= k < |x| ==> x[k] != '[' && x[k] != '('
    requires x == [] || !IsSpace(x[|x| - 1])
    requires forall k :: 0 <= k < |y| ==> y[k] != ')'
    ensures RemoveTextInBrackets(x + (" (" + y + ")")) == Strip(x)
  {
    var g := " (" + y + ")";
    PlainTextKept(x, g);
    ParenGroupDropped(y);
    assert x + [] == x;
  }

  /** " (...)" with no `)` inside is one whole match. */
  lemma ParenGroupDropped(y: string)
    requires forall k :: 0 <= k < |y| ==> y[k] != ')'
    ensures StripBracketGroups(" (" + y + ")") == []
  {
    var g := " (" + y + ")";
    ParenGroupLen(y);
    assert g[|g|..] == [];
  }

  lemma ParenGroupLen(y: string)
    requires forall k :: 0 <= k < |y| ==> y[k] != ')'
    ensures BracketGroupLen(" (" + y + ")") == Some(|y| + 3)
  {
    var g := " (" + y + ")";
    assert g[0] == ' ' && g[1] == '(';
    RunExact(g, 0, IsSpace, 1);
    assert SquareClose(g, 1).None?;
    forall k | 2 <= k < |y| + 2
      ensures !(0 <= k < |g| && g[k] == ')')
    {
      assert g[k] == y[k - 2];
    }
    FirstIsUnique(k => 0 <= k < |g| && g[k] == ')', 2, |g|, |y| + 2);
  }
}
