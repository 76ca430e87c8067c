/** Text primitives shared by the whole pipeline: the host facilities the core
    relies on (stemmer, character classes, stopword list, client URL), ASCII
    lowercasing, punctuation stripping, whitespace splitting and single-space
    joining. */
module Text {

  /** What the lyric search takes from its surroundings without modelling it:
      the Porter stemmer, Python's Unicode `\w` and whitespace classes, the
      NLTK English stopword set used for indexing, and CLIENT_URL. */
  datatype Env = Env(
    stem: string -> string,
    isWord: char -> bool,
    isSpace: char -> bool,
    stopWords: set<string>,
    clientUrl: string)

  /** Facts about Python's character classes that some lemmas rely on: the
      joining space is whitespace, and being a word character does not depend
      on case. */
  ghost predicate Valid(env: Env) {
    && env.isSpace(' ')
    && (forall c :: env.isWord(LowerChar(c)) == env.isWord(c))
  }

  /** `str.lower` restricted to ASCII letters. */
  function LowerChar(c: char): char {
    if 'A' <= c <= 'Z' then (c as int + 32) as char else c
  }

  function Lower(s: string): (r: string)
    ensures |r| == |s|
  {
    seq(|s|, k requires 0 <= k < |s| => LowerChar(s[k]))
  }

  predicate StartsWith(s: string, p: string) {
    |p| <= |s| && s[..|p|] == p
  }

  predicate EndsWith(s: string, q: string) {
    |q| <= |s| && s[|s| - |q|..] == q
  }

  /** A string that differs from `p` at a position both have does not start with `p`. */
  lemma DiffersAt(s: string, p: string, k: nat)
    requires k < |s| && k < |p| && s[k] != p[k]
    ensures !StartsWith(s, p)
  {
    if |p| <= |s| {
      assert s[..|p|][k] == s[k];
    }
  }

  predicate NoSpace(env: Env, w: string) {
    forall c :: c in w ==> !env.isSpace(c)
  }

  predicate WordOnly(env: Env, w: string) {
    forall c :: c in w ==> env.isWord(c)
  }

  /** A character survives `re.sub(r'[^\w\s]', '', …)`. */
  predicate Kept(env: Env, c: char) {
    env.isWord(c) || env.isSpace(c)
  }

  /** `re.sub(r'[^\w\s]', '', s)`: deletes (does not replace) every character
      that is neither a word character nor whitespace. */
  function StripPunct(env: Env, s: string): (r: string)
    ensures |r| <= |s|
    ensures forall c :: c in r ==> Kept(env, c)
    ensures forall c :: Kept(env, c) ==> multiset(r)[c] == multiset(s)[c]
  {
    if s == [] then []
    else
      assert s == [s[0]] + s[1..];
      (if Kept(env, s[0]) then [s[0]] else []) + StripPunct(env, s[1..])
  }

  lemma {:induction false} StripPunctConcat(env: Env, a: string, b: string)
    ensures StripPunct(env, a + b) == StripPunct(env, a) + StripPunct(env, b)
  {
    if a == [] {
      assert a + b == b;
    } else {
      assert (a + b)[0] == a[0];
      assert (a + b)[1..] == a[1..] + b;
      StripPunctConcat(env, a[1..], b);
    }
  }

  /** A string made only of word characters and whitespace is left as is. */
  lemma {:induction false} StripPunctKeepsKept(env: Env, s: string)
    requires forall c :: c in s ==> Kept(env, c)
    ensures StripPunct(env, s) == s
  {
    if s != [] {
      assert Kept(env, s[0]) by { assert s[0] in s; }
      assert forall c :: c in s[1..] ==> c in s;
      StripPunctKeepsKept(env, s[1..]);
      assert StripPunct(env, s) == [s[0]] + s[1..];
    }
  }

  /** Stripping twice is stripping once. */
  lemma StripPunctIdempotent(env: Env, s: string)
    ensures StripPunct(env, StripPunct(env, s)) == StripPunct(env, s)
  {
    StripPunctKeepsKept(env, StripPunct(env, s));
  }

  /** Stripping a whitespace-free string leaves it whitespace-free. */
  lemma {:induction false} StripPunctNoSpace(env: Env, s: string)
    requires NoSpace(env, s)
    ensures NoSpace(env, StripPunct(env, s))
  {
    if s != [] {
      assert NoSpace(env, s[1..]) by {
        forall c | c in s[1..] ensures !env.isSpace(c) { assert c in s; }
      }
      StripPunctNoSpace(env, s[1..]);
    }
  }

  /** Length of the leading run of non-whitespace characters. */
  function TokenLen(env: Env, s: string): (n: nat)
    ensures n <= |s|
    ensures forall k | 0 <= k < n :: !env.isSpace(s[k])
    ensures n == |s| || env.isSpace(s[n])
  {
    if s == [] || env.isSpace(s[0]) then 0 else 1 + TokenLen(env, s[1..])
  }

  /** `str.split()` with no argument: the maximal runs of non-whitespace. */
  function Split(env: Env, s: string): (r: seq<string>)
    ensures forall t | t in r :: t != [] && NoSpace(env, t)
    decreases |s|
  {
    if s == [] then []
    else if env.isSpace(s[0]) then Split(env, s[1..])
    else
      var n := TokenLen(env, s);
      assert NoSpace(env, s[..n]) by {
        forall c | c in s[..n] ensures !env.isSpace(c) {
          var k :| 0 <= k < n && s[..n][k] == c;
        }
      }
      [s[..n]] + Split(env, s[n..])
  }

  /** `' '.join(ts)`. */
  function JoinSpace(ts: seq<string>): string {
    if ts == [] then ""
    else if |ts| == 1 then ts[0]
    else ts[0] + " " + JoinSpace(ts[1..])
  }

  lemma {:induction false} TokenLenOf(env: Env, u: string, v: string)
    requires NoSpace(env, u)
    requires v == [] || env.isSpace(v[0])
    ensures TokenLen(env, u + v) == |u|
  {
    if u != [] {
      assert u[0] in u;
      assert (u + v)[1..] == u[1..] + v;
      assert NoSpace(env, u[1..]) by {
        forall c | c in u[1..] ensures !env.isSpace(c) { assert c in u; }
      }
      TokenLenOf(env, u[1..], v);
    }
  }

  /** A whitespace-free prefix followed by whitespace (or nothing) splits off
      as one token (or as none when it is empty). */
  lemma SplitWordThen(env: Env, u: string, v: string)
    requires NoSpace(env, u)
    requires v == [] || env.isSpace(v[0])
    ensures Split(env, u + v) == (if u == [] then [] else [u]) + Split(env, v)
  {
    if u == [] {
      assert u + v == v;
    } else {
      assert u[0] in u;
      TokenLenOf(env, u, v);
      assert (u + v)[..|u|] == u;
      assert (u + v)[|u|..] == v;
    }
  }

  /** Splitting undoes single-space joining of non-empty, whitespace-free
      tokens. */
  lemma {:induction false} SplitJoin(env: Env, ts: seq<string>)
    requires env.isSpace(' ')
    requires forall t | t in ts :: t != [] && NoSpace(env, t)
    ensures Split(env, JoinSpace(ts)) == ts
  {
    if ts == [] {
    } else if |ts| == 1 {
      SplitWordThen(env, ts[0], "");
      assert ts[0] + "" == ts[0];
    } else {
      assert ts[0] in ts;
      var rest := " " + JoinSpace(ts[1..]);
      assert ts[0] + " " + JoinSpace(ts[1..]) == ts[0] + rest;
      SplitWordThen(env, ts[0], rest);
      assert rest[1..] == JoinSpace(ts[1..]);
      assert forall t | t in ts[1..] :: t in ts;
      SplitJoin(env, ts[1..]);
      assert ts == [ts[0]] + ts[1..];
    }
  }

  /** The leading token has no whitespace. */
  lemma TokenNoSpace(env: Env, s: string)
    ensures NoSpace(env, s[..TokenLen(env, s)])
  {
    var n := TokenLen(env, s);
    forall c | c in s[..n] ensures !env.isSpace(c) { var k :| 0 <= k < n && s[..n][k] == c; }
  }

  /** Stripping keeps a leading whitespace character in front. */
  lemma StripPunctLeadingSpace(env: Env, v: string)
    requires v == [] || env.isSpace(v[0])
    ensures StripPunct(env, v) == [] || env.isSpace(StripPunct(env, v)[0])
  {
    if v != [] {
      assert StripPunct(env, v) == [v[0]] + StripPunct(env, v[1..]);
    }
  }

  /** Stripping punctuation never creates tokens: it can only empty some. */
  lemma {:induction false} SplitStripPunctCount(env: Env, s: string)
    ensures |Split(env, StripPunct(env, s))| <= |Split(env, s)|
    decreases |s|
  {
    if s == [] {
    } else if env.isSpace(s[0]) {
      assert StripPunct(env, s) == [s[0]] + StripPunct(env, s[1..]);
      assert ([s[0]] + StripPunct(env, s[1..]))[1..] == StripPunct(env, s[1..]);
      SplitStripPunctCount(env, s[1..]);
    } else {
      var n := TokenLen(env, s);
      var u, v := s[..n], s[n..];
      assert s == u + v;
      StripPunctConcat(env, u, v);
      TokenNoSpace(env, s);
      StripPunctNoSpace(env, u);
      StripPunctLeadingSpace(env, v);
      SplitWordThen(env, StripPunct(env, u), StripPunct(env, v));
      SplitStripPunctCount(env, v);
    }
  }

  /** A space separates tokens: splitting around it splits each side. */
  lemma {:induction false} SplitAroundSpace(env: Env, a: string, b: string)
    requires env.isSpace(' ')
    ensures Split(env, a + " " + b) == Split(env, a) + Split(env, b)
    decreases |a|
  {
    var s := a + " " + b;
    if a == [] {
      assert s == " " + b;
      assert s[1..] == b;
    } else if env.isSpace(a[0]) {
      assert s[1..] == a[1..] + " " + b;
      SplitAroundSpace(env, a[1..], b);
    } else {
      var n := TokenLen(env, a);
      var u, w := a[..n], a[n..];
      TokenNoSpace(env, a);
      assert a == u + w;
      assert s == u + (w + " " + b);
      assert (w + " " + b)[0] == (if w == [] then ' ' else w[0]);
      SplitWordThen(env, u, w + " " + b);
      SplitWordThen(env, u, w);
      SplitAroundSpace(env, w, b);
    }
  }

  lemma {:induction false} JoinSpaceConcat(xs: seq<string>, ys: seq<string>)
    requires xs != [] && ys != []
    ensures JoinSpace(xs + ys) == JoinSpace(xs) + " " + JoinSpace(ys)
  {
    if |xs| == 1 {
      assert (xs + ys)[1..] == ys;
    } else {
      assert (xs + ys)[1..] == xs[1..] + ys;
      JoinSpaceConcat(xs[1..], ys);
    }
  }

  /** Number of occurrences of `c` in `s`. */
  function Count(c: char, s: string): nat {
    if s == [] then 0 else (if s[0] == c then 1 else 0) + Count(c, s[1..])
  }

  lemma {:induction false} CountConcat(a: string, b: string)
    ensures forall c :: Count(c, a + b) == Count(c, a) + Count(c, b)
  {
    if a == [] {
      assert a + b == b;
    } else {
      assert (a + b)[1..] == a[1..] + b;
      CountConcat(a[1..], b);
    }
  }

  lemma CountConcat3(a: string, b: string, d: string)
    ensures forall c :: Count(c, a + b + d) == Count(c, a) + Count(c, b) + Count(c, d)
  {
    CountConcat(a, b);
    CountConcat(a + b, d);
  }

  lemma {:induction false} CountAbsent(c: char, s: string)
    requires c !in s
    ensures Count(c, s) == 0
  {
    if s != [] {
      assert forall x | x in s[1..] :: x in s;
      CountAbsent(c, s[1..]);
    }
  }
}
