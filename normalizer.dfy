/** `preprocess_lyrics`: punctuation stripping, whitespace tokenising,
    stopword removal and stemming, rejoined with single spaces. */
module Normalizer {
  import opened Text

  /** The whitespace tokens of the punctuation-stripped text. */
  function Tokens(env: Env, text: string): seq<string> {
    Split(env, StripPunct(env, text))
  }

  /** The tokens whose lowercase form is not an index stopword, in order. */
  function KeptTokens(env: Env, ws: seq<string>): (r: seq<string>)
    ensures |r| <= |ws|
    ensures forall w | w in r :: w in ws && Lower(w) !in env.stopWords
    ensures forall w | w in ws && Lower(w) !in env.stopWords :: w in r
  {
    if ws == [] then []
    else (if Lower(ws[0]) in env.stopWords then [] else [ws[0]]) + KeptTokens(env, ws[1..])
  }

  function Stems(env: Env, ws: seq<string>): (r: seq<string>)
    ensures |r| == |ws|
  {
    seq(|ws|, k requires 0 <= k < |ws| => env.stem(ws[k]))
  }

  /** `preprocess_lyrics(text)`. */
  function Preprocess(env: Env, text: string): string {
    JoinSpace(Stems(env, KeptTokens(env, Tokens(env, text))))
  }

  /** What the stemmer is assumed to do for the token-level lemmas: a
      non-empty word is stemmed to a non-empty string without whitespace. */
  ghost predicate StemKeepsTokens(env: Env) {
    forall w: string {:trigger env.stem(w)} :: w != [] && WordOnly(env, w) ==>
      env.stem(w) != [] && NoSpace(env, env.stem(w))
  }

  /** Every token of the stripped text is a non-empty run of word characters. */
  lemma TokensAreWords(env: Env, text: string)
    ensures forall w | w in Tokens(env, text) :: w != [] && WordOnly(env, w)
  {
    var s := StripPunct(env, text);
    forall w | w in Tokens(env, text) ensures w != [] && WordOnly(env, w) {
      assert forall c | c in w :: !env.isSpace(c);
      SplitSubstring(env, s, w);
    }
  }

  /** Every character of a token occurs in the string it was split from. */
  lemma {:induction false} SplitSubstring(env: Env, s: string, w: string)
    requires w in Split(env, s)
    ensures forall c | c in w :: c in s
    decreases |s|
  {
    if env.isSpace(s[0]) {
      SplitSubstring(env, s[1..], w);
      assert forall c | c in s[1..] :: c in s;
    } else {
      var n := TokenLen(env, s);
      if w == s[..n] {
        assert forall c | c in s[..n] :: c in s;
      } else {
        SplitSubstring(env, s[n..], w);
        assert forall c | c in s[n..] :: c in s;
      }
    }
  }

  /** The normalised text splits back into exactly one stem per kept token,
      in order. */
  lemma PreprocessSplits(env: Env, text: string)
    requires env.isSpace(' ')
    requires StemKeepsTokens(env)
    ensures Split(env, Preprocess(env, text)) == Stems(env, KeptTokens(env, Tokens(env, text)))
  {
    TokensAreWords(env, text);
    var ks := KeptTokens(env, Tokens(env, text));
    var ss := Stems(env, ks);
    forall t | t in ss ensures t != [] && NoSpace(env, t) {
      var k :| 0 <= k < |ks| && ss[k] == t;
      assert ks[k] in ks;
      assert env.stem(ks[k]) == t;
    }
    SplitJoin(env, ss);
  }

  /** The normalised text never has more tokens than the original text. */
  lemma PreprocessTokenBound(env: Env, text: string)
    requires env.isSpace(' ')
    requires StemKeepsTokens(env)
    ensures |Split(env, Preprocess(env, text))| <= |Split(env, text)|
  {
    PreprocessSplits(env, text);
    SplitStripPunctCount(env, text);
  }

  /** No token is kept exactly when every token is a stopword. */
  lemma KeptTokensEmpty(env: Env, ws: seq<string>)
    ensures KeptTokens(env, ws) == [] <==> forall w | w in ws :: Lower(w) in env.stopWords
  {
    var ks := KeptTokens(env, ws);
    assert forall k | 0 <= k < |ks| :: ks[k] in ks;
  }

  /** Joining non-empty strings gives "" exactly when there are none. */
  lemma {:induction false} JoinSpaceEmpty(ts: seq<string>)
    requires forall t | t in ts :: t != []
    ensures JoinSpace(ts) == "" <==> ts == []
  {
    if ts != [] {
      assert ts[0] in ts;
      if |ts| > 1 {
        assert |JoinSpace(ts)| >= |ts[0]|;
      }
    }
  }

  /** Empty input, or input whose every token is a stopword, normalises to "". */
  lemma PreprocessAllStopwords(env: Env, text: string)
    requires forall w | w in Tokens(env, text) :: Lower(w) in env.stopWords
    ensures Preprocess(env, text) == ""
  {
    KeptTokensEmpty(env, Tokens(env, text));
  }

  /** With a well-behaved stemmer that is the only way to normalise to "". */
  lemma PreprocessEmptyIff(env: Env, text: string)
    requires StemKeepsTokens(env)
    ensures Preprocess(env, text) == "" <==> forall w | w in Tokens(env, text) :: Lower(w) in env.stopWords
  {
    TokensAreWords(env, text);
    var ks := KeptTokens(env, Tokens(env, text));
    var ss := Stems(env, ks);
    forall t | t in ss ensures t != [] {
      var k :| 0 <= k < |ks| && ss[k] == t;
      assert ks[k] in ks;
    }
    JoinSpaceEmpty(ss);
    KeptTokensEmpty(env, Tokens(env, text));
  }

  /** What normalisation idempotence needs of the stemmer: the stem of a
      word is a non-empty word, is its own stem, and is not a stopword. */
  ghost predicate StemSettles(env: Env) {
    forall w: string {:trigger env.stem(w)} :: w != [] && WordOnly(env, w) ==>
      && env.stem(w) != []
      && WordOnly(env, env.stem(w))
      && NoSpace(env, env.stem(w))
      && env.stem(env.stem(w)) == env.stem(w)
      && Lower(env.stem(w)) !in env.stopWords
  }

  /** Word-character strings joined by spaces hold only kept characters. */
  lemma {:induction false} JoinSpaceKept(env: Env, ts: seq<string>)
    requires env.isSpace(' ')
    requires forall t | t in ts :: WordOnly(env, t)
    ensures forall c | c in JoinSpace(ts) :: Kept(env, c)
  {
    if |ts| > 1 {
      assert ts[0] in ts;
      assert forall t | t in ts[1..] :: t in ts;
      JoinSpaceKept(env, ts[1..]);
    } else if |ts| == 1 {
      assert ts[0] in ts;
    }
  }

  /** Tokens none of which is a stopword are all kept. */
  lemma {:induction false} KeptTokensAll(env: Env, ws: seq<string>)
    requires forall w | w in ws :: Lower(w) !in env.stopWords
    ensures KeptTokens(env, ws) == ws
  {
    if ws != [] {
      assert ws[0] in ws;
      assert forall w | w in ws[1..] :: w in ws;
      KeptTokensAll(env, ws[1..]);
      assert ws == [ws[0]] + ws[1..];
    }
  }

  /** Normalising normalised text changes nothing, for a stemmer whose
      stems settle. */
  lemma PreprocessIdempotent(env: Env, text: string)
    requires env.isSpace(' ')
    requires StemSettles(env)
    ensures Preprocess(env, Preprocess(env, text)) == Preprocess(env, text)
  {
    TokensAreWords(env, text);
    var ks := KeptTokens(env, Tokens(env, text));
    var ss := Stems(env, ks);
    var p := JoinSpace(ss);
    forall t | t in ss
      ensures t != [] && WordOnly(env, t) && NoSpace(env, t)
      ensures env.stem(t) == t && Lower(t) !in env.stopWords
    {
      var k :| 0 <= k < |ks| && ss[k] == t;
      assert ks[k] in ks;
      assert env.stem(ks[k]) == t;
    }
    JoinSpaceKept(env, ss);
    StripPunctKeepsKept(env, p);
    SplitJoin(env, ss);
    assert Tokens(env, p) == ss;
    KeptTokensAll(env, ss);
    assert Stems(env, ss) == ss by {
      forall k | 0 <= k < |ss| ensures Stems(env, ss)[k] == ss[k] {
        assert ss[k] in ss;
      }
    }
  }
}
