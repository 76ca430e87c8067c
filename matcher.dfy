/** The pattern `\b<stem>\w*\b` compiled with `re.IGNORECASE`, used both to
    select lines (`str.contains`, a search anywhere) and to decide which
    tokens to highlight (`re.match`, anchored at the start). The stem only
    ever holds word characters and whitespace, so it is a literal. */
module Matcher {
  import opened Text

  predicate WordAt(env: Env, s: string, i: int) {
    0 <= i < |s| && env.isWord(s[i])
  }

  /** `\b` at position `i`: a word character on exactly one side, where the
      outside of the string counts as a non-word character. */
  predicate Boundary(env: Env, s: string, i: int) {
    WordAt(env, s, i - 1) != WordAt(env, s, i)
  }

  predicate SameIgnoringCase(a: string, b: string) {
    Lower(a) == Lower(b)
  }

  /** End of the run of word characters starting at `p`: where greedy `\w*`
      stops. */
  function RunEnd(env: Env, s: string, p: nat): (e: nat)
    requires p <= |s|
    ensures p <= e <= |s|
    ensures forall k | p <= k < e :: env.isWord(s[k])
    ensures e == |s| || !env.isWord(s[e])
    decreases |s| - p
  {
    if p == |s| || !env.isWord(s[p]) then p else RunEnd(env, s, p + 1)
  }

  /** The pattern matches at `i`: a boundary, the stem ignoring case, then
      `\w*\b`, which succeeds either with no word characters or after the
      whole run of them. */
  predicate MatchAt(env: Env, s: string, stem: string, i: nat) {
    && i + |stem| <= |s|
    && Boundary(env, s, i)
    && SameIgnoringCase(s[i..i + |stem|], stem)
    && (Boundary(env, s, i + |stem|) || Boundary(env, s, RunEnd(env, s, i + |stem|)))
  }

  /** The backtracking reading of the same pattern: some number of word
      characters after the stem is followed by a boundary. */
  ghost predicate RegexMatchAt(env: Env, s: string, stem: string, i: nat) {
    && i + |stem| <= |s|
    && Boundary(env, s, i)
    && SameIgnoringCase(s[i..i + |stem|], stem)
    && exists j | i + |stem| <= j <= |s| ::
         (forall k | i + |stem| <= k < j :: env.isWord(s[k])) && Boundary(env, s, j)
  }

  /** `re.search` succeeds on `s`. */
  predicate Contains(env: Env, s: string, stem: string) {
    exists i: nat | i <= |s| :: MatchAt(env, s, stem, i)
  }

  /** `re.match` succeeds on `t`. */
  predicate TokenMatches(env: Env, t: string, stem: string) {
    MatchAt(env, t, stem, 0)
  }

  /** The literal-prefix meaning: a boundary at which the stem begins,
      ignoring case. */
  predicate PrefixAt(env: Env, s: string, stem: string, i: nat) {
    i + |stem| <= |s| && Boundary(env, s, i) && SameIgnoringCase(s[i..i + |stem|], stem)
  }

  predicate StartsWithIgnoringCase(t: string, stem: string) {
    |stem| <= |t| && SameIgnoringCase(t[..|stem|], stem)
  }

  /** A stem as the stemmer returns it for an ordinary word: non-empty, and
      beginning and ending with a word character. */
  predicate ProperStem(env: Env, stem: string) {
    |stem| > 0 && env.isWord(stem[0]) && env.isWord(stem[|stem| - 1])
  }

  /** Trying only the empty run and the whole run for `\w*` loses no match. */
  lemma MatchAtIsRegex(env: Env, s: string, stem: string, i: nat)
    ensures MatchAt(env, s, stem, i) <==> RegexMatchAt(env, s, stem, i)
  {
    if i + |stem| <= |s| {
      var p := i + |stem|;
      var e := RunEnd(env, s, p);
      if !Boundary(env, s, p) && Boundary(env, s, e) {
        assert forall k | p <= k < e :: env.isWord(s[k]);
      }
      if RegexMatchAt(env, s, stem, i) {
        var j :| p <= j <= |s| && (forall k | p <= k < j :: env.isWord(s[k])) && Boundary(env, s, j);
        assert forall k | p < k < e :: !Boundary(env, s, k);
        assert j <= e;
      }
    }
  }

  /** Two characters equal up to case are both word characters or neither. */
  lemma SameCaseWord(env: Env, a: string, b: string, k: nat)
    requires Valid(env)
    requires SameIgnoringCase(a, b) && k < |a|
    ensures env.isWord(a[k]) == env.isWord(b[k])
  {
    assert Lower(a)[k] == LowerChar(a[k]);
    assert Lower(b)[k] == LowerChar(b[k]);
    assert env.isWord(LowerChar(a[k])) == env.isWord(a[k]);
    assert env.isWord(LowerChar(b[k])) == env.isWord(b[k]);
  }

  /** For a proper stem the trailing `\w*\b` always succeeds, so the pattern
      is the literal-prefix test. */
  lemma MatchAtIsPrefix(env: Env, s: string, stem: string, i: nat)
    requires Valid(env) && ProperStem(env, stem)
    ensures MatchAt(env, s, stem, i) <==> PrefixAt(env, s, stem, i)
  {
    if PrefixAt(env, s, stem, i) {
      var p := i + |stem|;
      var m := s[i..p];
      SameCaseWord(env, m, stem, |stem| - 1);
      assert s[p - 1] == m[|stem| - 1];
      var e := RunEnd(env, s, p);
      if !Boundary(env, s, p) {
        assert e > p;
        assert env.isWord(s[e - 1]);
      }
    }
  }

  /** Anchored at a token's start, the pattern for a proper stem asks exactly
      that the token start with the stem, ignoring case. */
  lemma TokenMatchesIsStartsWith(env: Env, t: string, stem: string)
    requires Valid(env) && ProperStem(env, stem)
    ensures TokenMatches(env, t, stem) <==> StartsWithIgnoringCase(t, stem)
  {
    MatchAtIsPrefix(env, t, stem, 0);
    if StartsWithIgnoringCase(t, stem) {
      assert t[0..|stem|] == t[..|stem|];
      SameCaseWord(env, t[..|stem|], stem, 0);
      assert WordAt(env, t, 0);
    }
  }

  /** Line selection for a proper stem: some word boundary of the text at
      which the stem begins, ignoring case. */
  lemma ContainsIsPrefixSearch(env: Env, s: string, stem: string)
    requires Valid(env) && ProperStem(env, stem)
    ensures Contains(env, s, stem) <==> exists i: nat | i <= |s| :: PrefixAt(env, s, stem, i)
  {
    forall i: nat | i <= |s| ensures MatchAt(env, s, stem, i) <==> PrefixAt(env, s, stem, i) {
      MatchAtIsPrefix(env, s, stem, i);
    }
  }
}
