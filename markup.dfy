/** markupsafe's `escape` on plain strings, with a decoder for the five
    entities it produces. */
module Markup {

  function EscapeChar(c: char): string {
    if c == '&' then "&amp;"
    else if c == '<' then "&lt;"
    else if c == '>' then "&gt;"
    else if c == '"' then "&#34;"
    else if c == '\'' then "&#39;"
    else [c]
  }

  /** `str(escape(s))`: each of `& < > " '` becomes its entity. */
  function Escape(s: string): (r: string)
    ensures |r| >= |s|
    ensures '<' !in r && '>' !in r && '"' !in r && '\'' !in r
  {
    if s == [] then "" else EscapeChar(s[0]) + Escape(s[1..])
  }

  /** What an HTML reader makes of the five entities. */
  function Unescape(s: string): string {
    if s == [] then ""
    else if |s| >= 5 && s[..5] == "&amp;" then "&" + Unescape(s[5..])
    else if |s| >= 4 && s[..4] == "&lt;" then "<" + Unescape(s[4..])
    else if |s| >= 4 && s[..4] == "&gt;" then ">" + Unescape(s[4..])
    else if |s| >= 5 && s[..5] == "&#34;" then "\"" + Unescape(s[5..])
    else if |s| >= 5 && s[..5] == "&#39;" then "'" + Unescape(s[5..])
    else [s[0]] + Unescape(s[1..])
  }

  lemma {:induction false} UnescapeAfterChar(c: char, t: string)
    ensures Unescape(EscapeChar(c) + t) == [c] + Unescape(t)
  {
    var e := EscapeChar(c);
    var s := e + t;
    assert s[..|e|] == e;
    assert s[|e|..] == t;
    assert s[0] == e[0];
    if c == '&' {
      assert s[..5] == "&amp;";
    } else if c == '<' {
      assert s[1] == 'l';
      assert !(|s| >= 5 && s[..5] == "&amp;") by { if |s| >= 5 { assert s[..5][1] == 'l'; } }
      assert s[..4] == "&lt;";
    } else if c == '>' {
      assert s[1] == 'g';
      assert !(|s| >= 5 && s[..5] == "&amp;") by { if |s| >= 5 { assert s[..5][1] == 'g'; } }
      assert !(s[..4] == "&lt;") by { assert s[..4][1] == 'g'; }
      assert s[..4] == "&gt;";
    } else if c == '"' {
      assert s[..5] == "&#34;";
      assert s[..5][1] == '#';
      assert s[..4][1] == '#';
    } else if c == '\'' {
      assert s[..5] == "&#39;";
      assert s[..5][1] == '#' && s[..5][3] == '9';
      assert s[..4][1] == '#';
    } else {
      assert e == [c];
      assert s[0] == c;
      assert |s| >= 4 ==> s[..4][0] == c;
      assert |s| >= 5 ==> s[..5][0] == c;
    }
  }

  /** Escaping loses nothing: decoding the entities gives the word back. */
  lemma {:induction false} UnescapeEscape(s: string)
    ensures Unescape(Escape(s)) == s
  {
    if s != [] {
      UnescapeAfterChar(s[0], Escape(s[1..]));
      UnescapeEscape(s[1..]);
      assert s == [s[0]] + s[1..];
    }
  }

  /** A string with none of the five characters is left as is. */
  lemma {:induction false} EscapePlain(s: string)
    requires forall c | c in s :: c != '&' && c != '<' && c != '>' && c != '"' && c != '\''
    ensures Escape(s) == s
  {
    if s != [] {
      assert s[0] in s;
      assert forall c | c in s[1..] :: c in s;
      EscapePlain(s[1..]);
      assert s == [s[0]] + s[1..];
    }
  }
}
