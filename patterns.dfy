/**
 * The two regular expressions the page object applies to UI text:
 *
 *   - `/\d+/` on a column header (the first run of decimal digits), and
 *   - `/(\d+) of (\d+) substasks/` on a card's inner text,
 *
 * both taken with JavaScript's `String.prototype.match` semantics: the match
 * that starts leftmost wins, and inside it each `\d+` is greedy. The
 * two-group shape `pre(\d+)mid(\d+)post` is written once as a `Pattern`; a
 * second instance, `Subtasks \((\d+) of (\d+)\)`, reads the detail view's
 * subtask summary back.
 */
module Patterns {
  import opened Wrappers
  import opened Strings

  /** The regular expression `pre(\d+)mid(\d+)post` with literal `pre`, `mid`, `post`. */
  datatype Pattern = Pattern(pre: string, mid: string, post: string)

  /** `mid` and `post` start with a non-digit, so a greedy `\d+` never has to give digits back. */
  predicate WellFormed(pat: Pattern) {
    |pat.mid| > 0 && !IsDigit(pat.mid[0]) && |pat.post| > 0 && !IsDigit(pat.post[0])
  }

  /** `/(\d+) of (\d+) substasks/`, spelling as in the UI text the page object expects. */
  const CardProgress := Pattern("", " of ", " substasks")

  /** `Subtasks \((\d+) of (\d+)\)`, the detail view's summary line. */
  const SubtaskSummary := Pattern("Subtasks (", " of ", ")")

  // ---------------------------------------------------------------------------
  // Declarative reading of a match

  /**
   * The pattern matches `s` starting at `p`, with the first group `s[p + |pre|..i]`
   * and the second group `s[i + |mid|..j]`.
   */
  ghost predicate MatchesWith(s: string, pat: Pattern, p: nat, i: nat, j: nat) {
    p + |pat.pre| < i && i + |pat.mid| < j && j + |pat.post| <= |s|
    && s[p..p + |pat.pre|] == pat.pre
    && AllDigits(s[p + |pat.pre|..i])
    && s[i..i + |pat.mid|] == pat.mid
    && AllDigits(s[i + |pat.mid|..j])
    && s[j..j + |pat.post|] == pat.post
  }

  /**
   * The two captured groups of a match, each through `parseInt` (read in place;
   * `NumberAtIsDigitsValue` relates this to `DigitsValue` on the group's text).
   */
  function Groups(s: string, pat: Pattern, p: nat, i: nat, j: nat): (nat, nat)
    requires MatchesWith(s, pat, p, i, j)
  {
    (NumberAt(s, p + |pat.pre|, i), NumberAt(s, i + |pat.mid|, j))
  }

  /** A match at `p`, and no match at all at any earlier position. */
  ghost predicate LeftmostMatchIs(s: string, pat: Pattern, p: nat, i: nat, j: nat) {
    MatchesWith(s, pat, p, i, j)
    && forall q: nat, i': nat, j': nat :: q < p ==> !MatchesWith(s, pat, q, i', j')
  }

  // ---------------------------------------------------------------------------
  // Greedy matcher

  /** The regex engine at one start position: literal, greedy digits, literal, greedy digits, literal. */
  function MatchAt(s: string, pat: Pattern, p: nat): Option<(nat, nat)>
    requires p <= |s|
  {
    if p + |pat.pre| > |s| || !LiteralAt(s, p, pat.pre) then None
    else
      var q := p + |pat.pre|;
      var i := DigitRunEnd(s, q);
      if i == q || i + |pat.mid| > |s| || !LiteralAt(s, i, pat.mid) then None
      else
        var r := i + |pat.mid|;
        var j := DigitRunEnd(s, r);
        if j == r || j + |pat.post| > |s| || !LiteralAt(s, j, pat.post) then None
        else Some((NumberAt(s, q, i), NumberAt(s, r, j)))
  }

  /** Whatever split a backtracking engine may find at `p`, the greedy matcher finds it too. */
  lemma MatchAtComplete(s: string, pat: Pattern, p: nat, i: nat, j: nat)
    requires WellFormed(pat)
    requires MatchesWith(s, pat, p, i, j)
    ensures MatchAt(s, pat, p) == Some(Groups(s, pat, p, i, j))
  {
    var q, r := p + |pat.pre|, i + |pat.mid|;
    assert s[i] == pat.mid[0] by { assert s[i..r][0] == s[i]; }
    DigitRunEndAt(s, q, i);
    assert s[j] == pat.post[0] by { assert s[j..j + |pat.post|][0] == s[j]; }
    DigitRunEndAt(s, r, j);
    LiteralAtIsSlice(s, p, pat.pre);
    LiteralAtIsSlice(s, i, pat.mid);
    LiteralAtIsSlice(s, j, pat.post);
  }

  /** A greedy match is a match. */
  lemma MatchAtSound(s: string, pat: Pattern, p: nat)
    requires p <= |s|
    requires MatchAt(s, pat, p).Some?
    ensures exists i: nat, j: nat :: MatchesWith(s, pat, p, i, j) && Groups(s, pat, p, i, j) == MatchAt(s, pat, p).value
  {
    var q := p + |pat.pre|;
    var i := DigitRunEnd(s, q);
    var r := i + |pat.mid|;
    var j := DigitRunEnd(s, r);
    assert MatchAt(s, pat, p) == Some((NumberAt(s, q, i), NumberAt(s, r, j)));
    DigitRunEndIsRun(s, q);
    DigitRunEndIsRun(s, r);
    LiteralAtIsSlice(s, p, pat.pre);
    LiteralAtIsSlice(s, i, pat.mid);
    LiteralAtIsSlice(s, j, pat.post);
    assert MatchesWith(s, pat, p, i, j);
  }

  /** A well-formed pattern splits a match at a given start in exactly one way. */
  lemma {:induction false} MatchUnique(s: string, pat: Pattern, p: nat, i: nat, j: nat, i': nat, j': nat)
    requires WellFormed(pat)
    requires MatchesWith(s, pat, p, i, j) && MatchesWith(s, pat, p, i', j')
    ensures i == i' && j == j'
  {
    MatchAtComplete(s, pat, p, i, j);
    MatchAtComplete(s, pat, p, i', j');
    DigitRunEndAt(s, p + |pat.pre|, i);
    DigitRunEndAt(s, p + |pat.pre|, i');
    DigitRunEndAt(s, i + |pat.mid|, j);
    DigitRunEndAt(s, i' + |pat.mid|, j');
  }

  /**
   * `s.match(regex)` from start position `from` on: the groups of the first
   * start where the matcher succeeds, or `null`.
   */
  function FindFrom(s: string, pat: Pattern, from: nat): Option<(nat, nat)>
    requires from <= |s| + 1
    decreases |s| + 1 - from
  {
    if from > |s| then None
    else match MatchAt(s, pat, from)
      case Some(groups) => Some(groups)
      case None => FindFrom(s, pat, from + 1)
  }

  /** `s.match(regex)`: the two groups of the leftmost match, or `null`. */
  function Find(s: string, pat: Pattern): Option<(nat, nat)> {
    FindFrom(s, pat, 0)
  }

  /** The start position of the match `FindFrom` reports, if any. */
  function LeftmostFrom(s: string, pat: Pattern, from: nat): (r: Option<nat>)
    requires from <= |s| + 1
    ensures r.Some? ==> from <= r.value <= |s|
    decreases |s| + 1 - from
  {
    if from > |s| then None
    else if MatchAt(s, pat, from).Some? then Some(from)
    else LeftmostFrom(s, pat, from + 1)
  }

  /** `FindFrom` reports the groups the matcher gives at `LeftmostFrom`. */
  lemma {:induction false} FindFromAtLeftmost(s: string, pat: Pattern, from: nat)
    requires from <= |s| + 1
    ensures LeftmostFrom(s, pat, from).None? ==> FindFrom(s, pat, from).None?
    ensures LeftmostFrom(s, pat, from).Some? ==> FindFrom(s, pat, from) == MatchAt(s, pat, LeftmostFrom(s, pat, from).value)
    decreases |s| + 1 - from
  {
    if from <= |s| && MatchAt(s, pat, from).None? {
      FindFromAtLeftmost(s, pat, from + 1);
    }
  }

  /** Where `LeftmostFrom` stops, the matcher succeeds. */
  lemma {:induction false} LeftmostFromFound(s: string, pat: Pattern, from: nat)
    requires from <= |s| + 1
    requires LeftmostFrom(s, pat, from).Some?
    ensures MatchAt(s, pat, LeftmostFrom(s, pat, from).value).Some?
    decreases |s| + 1 - from
  {
    if MatchAt(s, pat, from).None? {
      LeftmostFromFound(s, pat, from + 1);
    }
  }

  /** Every start `k` from `from` on that `LeftmostFrom` passes over, or all of them when it finds none, fails to match. */
  lemma {:induction false} LeftmostFromSkips(s: string, pat: Pattern, from: nat, k: nat)
    requires from <= k <= |s|
    requires LeftmostFrom(s, pat, from).None? || k < LeftmostFrom(s, pat, from).value
    ensures MatchAt(s, pat, k).None?
    decreases k - from
  {
    if k > from {
      assert MatchAt(s, pat, from).None?;
      LeftmostFromSkips(s, pat, from + 1, k);
    }
  }

  /**
   * `Find` is the regular expression's meaning: it returns the groups of the
   * leftmost match, and it returns nothing exactly when nothing matches.
   */
  lemma FindIsLeftmostMatch(s: string, pat: Pattern)
    requires WellFormed(pat)
    ensures Find(s, pat).Some? ==>
      exists p: nat, i: nat, j: nat :: LeftmostMatchIs(s, pat, p, i, j) && Groups(s, pat, p, i, j) == Find(s, pat).value
    ensures Find(s, pat).None? <==> forall p: nat, i: nat, j: nat :: !MatchesWith(s, pat, p, i, j)
  {
    FindFromAtLeftmost(s, pat, 0);
    match LeftmostFrom(s, pat, 0)
    case Some(p) =>
      LeftmostFromFound(s, pat, 0);
      MatchAtSound(s, pat, p);
      var i: nat, j: nat :| MatchesWith(s, pat, p, i, j) && Groups(s, pat, p, i, j) == MatchAt(s, pat, p).value;
      forall q: nat, i': nat, j': nat | q < p
        ensures !MatchesWith(s, pat, q, i', j')
      {
        if MatchesWith(s, pat, q, i', j') {
          MatchAtComplete(s, pat, q, i', j');
          LeftmostFromSkips(s, pat, 0, q);
        }
      }
      assert LeftmostMatchIs(s, pat, p, i, j);
    case None =>
      forall p: nat, i: nat, j: nat
        ensures !MatchesWith(s, pat, p, i, j)
      {
        if MatchesWith(s, pat, p, i, j) {
          MatchAtComplete(s, pat, p, i, j);
          LeftmostFromSkips(s, pat, 0, p);
        }
      }
  }

  /** The leftmost match is the one `Find` reports (the converse of `FindIsLeftmostMatch`). */
  lemma LeftmostMatchIsFound(s: string, pat: Pattern, p: nat, i: nat, j: nat)
    requires WellFormed(pat)
    requires LeftmostMatchIs(s, pat, p, i, j)
    ensures Find(s, pat) == Some(Groups(s, pat, p, i, j))
  {
    MatchAtComplete(s, pat, p, i, j);
    FindFromAtLeftmost(s, pat, 0);
    if LeftmostFrom(s, pat, 0).None? || p < LeftmostFrom(s, pat, 0).value {
      LeftmostFromSkips(s, pat, 0, p);
    } else if LeftmostFrom(s, pat, 0).value < p {
      var r := LeftmostFrom(s, pat, 0).value;
      LeftmostFromFound(s, pat, 0);
      MatchAtSound(s, pat, r);
    }
  }

  // ---------------------------------------------------------------------------
  // `/\d+/`: the first number in a text

  /** `s[p..e]` is what `/\d+/` matches: the leftmost digit, extended as far as digits go. */
  ghost predicate FirstNumberAt(s: string, p: nat, e: nat) {
    p < e <= |s| && AllDigits(s[p..e]) && (e == |s| || !IsDigit(s[e]))
    && forall m: nat :: m < p ==> !IsDigit(s[m])
  }

  function FirstDigitFrom(s: string, from: nat): (r: Option<nat>)
    requires from <= |s|
    ensures r.Some? ==> from <= r.value < |s|
    decreases |s| - from
  {
    if from == |s| then None
    else if IsDigit(s[from]) then Some(from)
    else FirstDigitFrom(s, from + 1)
  }

  /** The search from `from` stops at the first digit at or after `from`, and finds none only when there is none. */
  lemma {:induction false} FirstDigitFromIsFirst(s: string, from: nat)
    requires from <= |s|
    ensures FirstDigitFrom(s, from).Some? ==> IsDigit(s[FirstDigitFrom(s, from).value])
    ensures FirstDigitFrom(s, from).Some? ==> forall m: nat :: from <= m < FirstDigitFrom(s, from).value ==> !IsDigit(s[m])
    ensures FirstDigitFrom(s, from).None? ==> forall m: nat :: from <= m < |s| ==> !IsDigit(s[m])
    decreases |s| - from
  {
    if from < |s| && !IsDigit(s[from]) {
      FirstDigitFromIsFirst(s, from + 1);
    }
  }

  /** `s.match(/\d+/)` followed by `parseInt(_, 10)`. */
  function FirstNumber(s: string): Option<nat> {
    match FirstDigitFrom(s, 0)
    case None => None
    case Some(p) => Some(NumberAt(s, p, DigitRunEnd(s, p)))
  }

  /**
   * `FirstNumber` is the value of the first run of digits, which `/\d+/` matches;
   * it is nothing exactly when `s` holds no digit.
   */
  lemma FirstNumberMeaning(s: string)
    ensures FirstNumber(s).None? <==> forall m: nat :: m < |s| ==> !IsDigit(s[m])
    ensures forall p: nat, e: nat :: FirstNumberAt(s, p, e) ==> FirstNumber(s) == Some(DigitsValue(s[p..e]))
    ensures FirstNumber(s).Some? ==> exists p: nat, e: nat :: FirstNumberAt(s, p, e) && FirstNumber(s).value == DigitsValue(s[p..e])
  {
    FirstDigitFromIsFirst(s, 0);
    match FirstDigitFrom(s, 0)
    case None =>
    case Some(p) =>
      var e := DigitRunEnd(s, p);
      DigitRunEndIsRun(s, p);
      assert s[p..e][0] == s[p];
      assert FirstNumberAt(s, p, e);
      FirstNumberAtUnique(s, p, e);
      NumberAtIsDigitsValue(s, p, e);
  }

  lemma FirstNumberAtUnique(s: string, p: nat, e: nat)
    requires FirstNumberAt(s, p, e)
    ensures forall p': nat, e': nat :: FirstNumberAt(s, p', e') ==> p' == p && e' == e
  {
    forall p': nat, e': nat | FirstNumberAt(s, p', e')
      ensures p' == p && e' == e
    {
      assert s[p..e][0] == s[p];
      assert s[p'..e'][0] == s[p'];
      assert p' == p;
      DigitRunEndAt(s, p, e);
      DigitRunEndAt(s, p, e');
    }
  }
}
