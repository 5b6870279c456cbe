/**
 * Character classes, Python's `str.strip`, substring tests and the two
 * searches ("first position where", "last position where") that the regular
 * expressions of the scraper are built from.
 *
 * Character classes follow Python 3's `str` semantics where the scraper
 * depends on them: whitespace is the set for which `str.isspace()` holds
 * (which is also what `\s` matches), while digits, letters and word
 * characters are the ASCII ones.
 */
module Text {
  import opened Wrappers

  /** Python's `str.isspace()`, which is also the `\s` class of a `str` pattern. */
  predicate IsSpace(c: char) {
    || c == ' '
    || '\t' <= c <= '\r'
    || '\U{1c}' <= c <= '\U{1f}'
    || c == '\U{85}'
    || c == '\U{a0}'
    || c == '\U{1680}'
    || '\U{2000}' <= c <= '\U{200a}'
    || c == '\U{2028}'
    || c == '\U{2029}'
    || c == '\U{202f}'
    || c == '\U{205f}'
    || c == '\U{3000}'
  }

  /** The no-break space that Wikipedia puts inside "(age&nbsp;N)". */
  const Nbsp: char := '\U{a0}'

  /** The en dash that separates the years of a career row. */
  const EnDash: char := '\U{2013}'

  predicate IsDigit(c: char) { '0' <= c <= '9' }

  predicate IsLetter(c: char) { 'A' <= c <= 'Z' || 'a' <= c <= 'z' }

  /** The `\w` class, restricted to ASCII. */
  predicate IsWordChar(c: char) { IsLetter(c) || IsDigit(c) || c == '_' }

  predicate AllDigits(s: string) { forall i :: 0 <= i < |s| ==> IsDigit(s[i]) }

  /** The value of a string of decimal digits, as `int()` reads it. */
  function DigitsValue(s: string): (n: nat)
    requires AllDigits(s)
  {
    if s == [] then 0 else DigitsValue(s[..|s| - 1]) * 10 + (s[|s| - 1] as int - '0' as int)
  }

  /** Removes the longest prefix whose characters all satisfy `p`. */
  function DropWhile(s: string, p: char -> bool): (r: string)
    ensures |r| <= |s|
  {
    if s == [] || !p(s[0]) then s else DropWhile(s[1..], p)
  }

  /** Removes the longest suffix whose characters all satisfy `p`. */
  function DropWhileEnd(s: string, p: char -> bool): (r: string)
    ensures |r| <= |s|
  {
    if s == [] || !p(s[|s| - 1]) then s else DropWhileEnd(s[..|s| - 1], p)
  }

  /** Python's `str.strip(chars)`, with the stripped characters given as a predicate. */
  function StripBy(s: string, p: char -> bool): string {
    DropWhileEnd(DropWhile(s, p), p)
  }

  /** `DropWhile` removes a prefix of characters satisfying `p`, and stops at one that does not. */
  lemma {:induction false} DropWhileFacts(s: string, p: char -> bool)
    ensures var r := DropWhile(s, p);
      && r == s[|s| - |r|..]
      && (r == [] || !p(r[0]))
      && forall i :: 0 <= i < |s| - |r| ==> p(s[i])
  {
    if s != [] && p(s[0]) {
      DropWhileFacts(s[1..], p);
    }
  }

  /** `DropWhileEnd` removes a suffix of characters satisfying `p`, and stops at one that does not. */
  lemma {:induction false} DropWhileEndFacts(s: string, p: char -> bool)
    ensures var r := DropWhileEnd(s, p);
      && r == s[..|r|]
      && (r == [] || !p(r[|r| - 1]))
      && forall i :: |r| <= i < |s| ==> p(s[i])
  {
    if s != [] && p(s[|s| - 1]) {
      DropWhileEndFacts(s[..|s| - 1], p);
    }
  }

  /**
   * `strip` keeps a slice of `s`: everything before it and after it satisfies
   * `p`, and the slice neither starts nor ends with such a character.
   */
  lemma StripByFacts(s: string, p: char -> bool)
    ensures exists i, j :: 0 <= i <= j <= |s| && StripBy(s, p) == s[i..j]
                           && (forall k :: 0 <= k < i ==> p(s[k]))
                           && (forall k :: j <= k < |s| ==> p(s[k]))
    ensures var r := StripBy(s, p); r == [] || (!p(r[0]) && !p(r[|r| - 1]))
  {
    var a := DropWhile(s, p);
    var b := DropWhileEnd(a, p);
    DropWhileFacts(s, p);
    DropWhileEndFacts(a, p);
    assert b == s[|s| - |a|..|s| - |a| + |b|];
  }

  /** Python's `str.strip()`. */
  function Strip(s: string): string { StripBy(s, IsSpace) }

  /** Python's `str.strip("()")`. */
  function StripParens(s: string): string { StripBy(s, c => c == '(' || c == ')') }

  /** A string whose `strip()` is empty, which Python treats as false. */
  predicate IsBlank(s: string) { Strip(s) == [] }

  lemma {:induction false} DropWhileAll(s: string, p: char -> bool)
    requires forall i :: 0 <= i < |s| ==> p(s[i])
    ensures DropWhile(s, p) == []
  {
    if s != [] {
      DropWhileAll(s[1..], p);
    }
  }

  /** `s.strip()` is empty exactly when every character of `s` is whitespace. */
  lemma BlankIffAllSpace(s: string)
    ensures IsBlank(s) <==> forall i :: 0 <= i < |s| ==> IsSpace(s[i])
  {
    DropWhileFacts(s, IsSpace);
    DropWhileEndFacts(DropWhile(s, IsSpace), IsSpace);
    if forall i :: 0 <= i < |s| ==> IsSpace(s[i]) {
      DropWhileAll(s, IsSpace);
    } else {
      var k :| 0 <= k < |s| && !IsSpace(s[k]);
      var a := DropWhile(s, IsSpace);
      assert |a| > 0 && !IsSpace(a[0]);
    }
  }

  /** A string that neither starts nor ends with a stripped character is left alone. */
  lemma StripByFixed(s: string, p: char -> bool)
    requires s == [] || (!p(s[0]) && !p(s[|s| - 1]))
    ensures StripBy(s, p) == s
  {
  }

  /** Stripping twice is stripping once. */
  lemma StripIdempotent(s: string)
    ensures Strip(Strip(s)) == Strip(s)
  {
    StripByFacts(s, IsSpace);
    StripByFixed(Strip(s), IsSpace);
  }

  /** `strip()` only removes characters: one absent before is absent after. */
  lemma StripKeepsAbsent(s: string, c: char)
    requires forall k :: 0 <= k < |s| ==> s[k] != c
    ensures var t := Strip(s); forall k :: 0 <= k < |t| ==> t[k] != c
  {
    StripByFacts(s, IsSpace);
    var i, j :| 0 <= i <= j <= |s| && Strip(s) == s[i..j];
    var t := Strip(s);
    forall k | 0 <= k < |t|
      ensures t[k] != c
    {
      assert t[k] == s[i + k];
    }
  }

  /** `sub in s` for Python strings. */
  predicate Contains(s: string, sub: string) {
    exists k :: 0 <= k <= |s| - |sub| && OccursAt(s, k, sub)
  }

  /** The text `sub` occurs in `s` at position `i`. */
  predicate OccursAt(s: string, i: int, sub: string) {
    0 <= i && i + |sub| <= |s| && s[i..i + |sub|] == sub
  }

  /** Python's `str.endswith`. */
  predicate EndsWith(s: string, suffix: string) {
    |suffix| <= |s| && s[|s| - |suffix|..] == suffix
  }

  /** ASCII lower-casing of one character. */
  function LowerChar(c: char): char {
    if 'A' <= c <= 'Z' then (c as int + 32) as char else c
  }

  /** `str.lower()` on the ASCII letters; every other character is kept. */
  function Lower(s: string): string {
    seq(|s|, i requires 0 <= i < |s| => LowerChar(s[i]))
  }

  /** The length of the longest run of characters satisfying `p` that starts at `i`. */
  function Run(s: string, i: nat, p: char -> bool): (n: nat)
    decreases |s| - i
    ensures i + n <= |s| || n == 0
  {
    if i >= |s| || !p(s[i]) then 0 else 1 + Run(s, i + 1, p)
  }

  /**
   * The run at `i` is as long as it can be: its characters satisfy `p` and
   * the one after it does not.
   */
  lemma {:induction false} RunFacts(s: string, i: nat, p: char -> bool)
    decreases |s| - i
    ensures forall k :: i <= k < i + Run(s, i, p) ==> p(s[k])
    ensures i + Run(s, i, p) >= |s| || !p(s[i + Run(s, i, p)])
  {
    if i < |s| && p(s[i]) {
      RunFacts(s, i + 1, p);
    }
  }

  /** `Run` is determined by where the run of characters ends. */
  lemma RunExact(s: string, i: nat, p: char -> bool, n: nat)
    requires i + n <= |s|
    requires forall k :: i <= k < i + n ==> p(s[k])
    requires i + n == |s| || !p(s[i + n])
    ensures Run(s, i, p) == n
    decreases n
  {
    if n > 0 {
      RunExact(s, i + 1, p, n - 1);
    }
  }

  /** A prefix one longer is the shorter prefix and the next element. */
  lemma TakeOneMore<T>(xs: seq<T>, i: int)
    requires 0 <= i < |xs|
    ensures xs[..i + 1] == xs[..i] + [xs[i]]
  {
  }

  /** Putting one element in front regroups a concatenation. */
  lemma ConsAppend<T>(c: T, y: seq<T>, u: seq<T>)
    ensures [c] + (y + u) == ([c] + y) + u
  {
    var l, r := [c] + (y + u), ([c] + y) + u;
    assert forall k :: 0 <= k < |l| ==> l[k] == r[k];
  }

  /** Where `s` reads `w` then `rest` from `i` on, the two pieces are slices of `s`. */
  lemma SuffixSplit(s: string, i: nat, w: string, rest: string)
    requires i <= |s| && s[i..] == w + rest
    ensures |s| == i + |w| + |rest|
    ensures s[i..i + |w|] == w && s[i + |w|..] == rest
  {
    assert s[i..i + |w|] == s[i..][..|w|];
    assert s[i + |w|..] == s[i..][|w|..];
  }

  /** A piece `w` of characters satisfying `p`, not followed by another one, is the run at its start. */
  lemma RunOfPiece(s: string, i: nat, w: string, rest: string, p: char -> bool)
    requires i <= |s| && s[i..] == w + rest
    requires forall k :: 0 <= k < |w| ==> p(w[k])
    requires rest == [] || !p(rest[0])
    ensures Run(s, i, p) == |w|
  {
    forall k | i <= k < i + |w|
      ensures p(s[k])
    {
      assert s[k] == s[i..][k - i] == w[k - i];
    }
    if rest != [] {
      assert s[i + |w|] == s[i..][|w|] == rest[0];
    }
    RunExact(s, i, p, |w|);
  }

  /** `RunOfPiece` and `SuffixSplit` together: reads the piece `w` at `i` and moves past it. */
  lemma Piece(s: string, i: nat, w: string, rest: string, p: char -> bool)
    requires i <= |s| && s[i..] == w + rest
    requires forall k :: 0 <= k < |w| ==> p(w[k])
    requires rest == [] || !p(rest[0])
    ensures Run(s, i, p) == |w| && s[i..i + |w|] == w && s[i + |w|..] == rest
  {
    RunOfPiece(s, i, w, rest, p);
    SuffixSplit(s, i, w, rest);
  }

  /** The smallest `k` in `[lo, hi)` with `P(k)`: how `re.search` picks its leftmost match. */
  function First(P: int -> bool, lo: int, hi: int): (r: Option<int>)
    decreases hi - lo
    ensures r.Some? ==> lo <= r.value < hi && P(r.value)
    ensures r.Some? ==> forall j :: lo <= j < r.value ==> !P(j)
    ensures r.None? ==> forall j :: lo <= j < hi ==> !P(j)
  {
    if lo >= hi then None else if P(lo) then Some(lo) else First(P, lo + 1, hi)
  }

  /** The largest `k` in `[lo, hi)` with `P(k)`: how a greedy quantifier backtracks. */
  function Last(P: int -> bool, lo: int, hi: int): (r: Option<int>)
    decreases hi - lo
    ensures r.Some? ==> lo <= r.value < hi && P(r.value)
    ensures r.Some? ==> forall j :: r.value < j < hi ==> !P(j)
    ensures r.None? ==> forall j :: lo <= j < hi ==> !P(j)
  {
    if lo >= hi then None else if P(hi - 1) then Some(hi - 1) else Last(P, lo, hi - 1)
  }

  /** A search that finds a position finds the first one. */
  lemma FirstIsUnique(P: int -> bool, lo: int, hi: int, k: int)
    requires lo <= k < hi && P(k)
    requires forall j :: lo <= j < k ==> !P(j)
    ensures First(P, lo, hi) == Some(k)
  {
  }

  /** A backward search that finds a position finds the last one. */
  lemma LastIsUnique(P: int -> bool, lo: int, hi: int, k: int)
    requires lo <= k < hi && P(k)
    requires forall j :: k < j < hi ==> !P(j)
    ensures Last(P, lo, hi) == Some(k)
  {
  }

  /** The first index from `lo` on whose element satisfies `P`: a forward scan over a list. */
  function FirstWhere<T>(xs: seq<T>, P: T -> bool, lo: int): (r: Option<int>)
    requires 0 <= lo
    ensures r.Some? ==> lo <= r.value < |xs| && P(xs[r.value])
    ensures r.Some? ==> forall j :: lo <= j < r.value ==> !P(xs[j])
    ensures r.None? ==> forall j :: lo <= j < |xs| ==> !P(xs[j])
    decreases |xs| - lo
  {
    if lo >= |xs| then None else if P(xs[lo]) then Some(lo) else FirstWhere(xs, P, lo + 1)
  }

  /** The last index in `[lo, hi)` whose element satisfies `P`: a backward scan over a list. */
  function LastWhere<T>(xs: seq<T>, P: T -> bool, lo: int, hi: int): (r: Option<int>)
    requires 0 <= lo && hi <= |xs|
    ensures r.Some? ==> lo <= r.value < hi && P(xs[r.value])
    ensures r.Some? ==> forall j :: r.value < j < hi ==> !P(xs[j])
    ensures r.None? ==> forall j :: lo <= j < hi ==> !P(xs[j])
    decreases hi - lo
  {
    if lo >= hi then None else if P(xs[hi - 1]) then Some(hi - 1) else LastWhere(xs, P, lo, hi - 1)
  }

  lemma FirstWhereUnique<T>(xs: seq<T>, P: T -> bool, lo: int, k: int)
    requires 0 <= lo <= k < |xs| && P(xs[k])
    requires forall j :: lo <= j < k ==> !P(xs[j])
    ensures FirstWhere(xs, P, lo) == Some(k)
  {
  }

  lemma LastWhereUnique<T>(xs: seq<T>, P: T -> bool, lo: int, hi: int, k: int)
    requires 0 <= lo <= k < hi <= |xs| && P(xs[k])
    requires forall j :: k < j < hi ==> !P(xs[j])
    ensures LastWhere(xs, P, lo, hi) == Some(k)
  {
  }

  /** A backward scan of the slice `xs[a..b]` that stops at `j` is the backward scan of `xs` over `[a, b)` stopping at `a + j`. */
  lemma LastWhereOfSlice<T>(xs: seq<T>, P: T -> bool, a: int, b: int, ys: seq<T>, j: int)
    requires 0 <= a <= b <= |xs| && ys == xs[a..b]
    requires 0 <= j < |ys| && P(ys[j])
    requires forall m :: j < m < |ys| ==> !P(ys[m])
    ensures LastWhere(xs, P, a, b) == Some(a + j)
  {
    forall i | a + j < i < b
      ensures !P(xs[i])
    {
      assert xs[i] == ys[i - a];
    }
    assert xs[a + j] == ys[j];
    LastWhereUnique(xs, P, a, b, a + j);
  }

  /** A backward scan of the slice `xs[a..b]` that finds nothing means nothing in `[a, b)` qualifies. */
  lemma LastWhereNoneOfSlice<T>(xs: seq<T>, P: T -> bool, a: int, b: int, ys: seq<T>)
    requires 0 <= a <= b <= |xs| && ys == xs[a..b]
    requires forall m :: 0 <= m < |ys| ==> !P(ys[m])
    ensures LastWhere(xs, P, a, b).None?
  {
    forall i | a <= i < b
      ensures !P(xs[i])
    {
      assert xs[i] == ys[i - a];
    }
  }

  /** A forward scan that succeeds inside a prefix gives the same index on the whole list. */
  lemma FirstWhereOfPrefix<T>(xs: seq<T>, P: T -> bool, n: int, k: int)
    requires 0 <= n <= |xs| && FirstWhere(xs[..n], P, 0) == Some(k)
    ensures FirstWhere(xs, P, 0) == Some(k)
  {
    forall j | 0 <= j <= k
      ensures xs[j] == xs[..n][j]
    {
    }
    FirstWhereUnique(xs, P, 0, k);
  }

  /** Appending elements that fail `P` does not move the last match. */
  lemma LastWhereAppendNone<T>(xs: seq<T>, ys: seq<T>, P: T -> bool)
    requires forall k :: 0 <= k < |ys| ==> !P(ys[k])
    ensures LastWhere(xs + ys, P, 0, |xs + ys|) == LastWhere(xs, P, 0, |xs|)
  {
    var zs := xs + ys;
    forall j | |xs| <= j < |zs|
      ensures !P(zs[j])
    {
      assert zs[j] == ys[j - |xs|];
    }
    var l := LastWhere(xs, P, 0, |xs|);
    if l.Some? {
      assert zs[l.value] == xs[l.value];
      forall j | l.value < j < |zs|
        ensures !P(zs[j])
      {
        if j < |xs| {
          assert zs[j] == xs[j];
        }
      }
      LastWhereUnique(zs, P, 0, |zs|, l.value);
    } else {
      forall j | 0 <= j < |zs|
        ensures !P(zs[j])
      {
        if j < |xs| {
          assert zs[j] == xs[j];
        }
      }
    }
  }
}
