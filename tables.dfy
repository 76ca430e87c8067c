/** The two fixed album tables: the display class of each album and the
    canonical album order. Both are written exactly as app.py has them;
    note that the class table spells "The Tortured Poets Department" while
    the order spells "The Tortured Poet's Department". */
module Tables {

  /** `album_css_classes`. */
  const AlbumCssClasses: map<string, string> := map[
    "Taylor Swift" := "taylor-swift",
    "Fearless" := "fearless",
    "Speak Now" := "speak-now",
    "Red" := "red",
    "1989" := "nineteen-eighty-nine",
    "Reputation" := "reputation",
    "Lover" := "lover",
    "Folklore" := "folklore",
    "Evermore" := "evermore",
    "Midnights" := "midnights",
    "The Tortured Poets Department" := "the-tortured-poets-department"
  ]

  /** `album_order`. */
  const AlbumOrder: seq<string> := [
    "Taylor Swift",
    "Fearless",
    "Speak Now",
    "Red",
    "1989",
    "Reputation",
    "Lover",
    "Folklore",
    "Evermore",
    "Midnights",
    "The Tortured Poet's Department"
  ]

  /** `album_css_classes.get(title, '')`. */
  function CssClass(title: string): string {
    if title in AlbumCssClasses then AlbumCssClasses[title] else ""
  }

  /** `s.index(x)` when `x` occurs in `s`, and `len(s)` otherwise. */
  function IndexOf(s: seq<string>, x: string): (r: nat)
    ensures r <= |s|
    ensures r < |s| ==> s[r] == x
    ensures forall j | 0 <= j < r :: s[j] != x
  {
    if s == [] then 0
    else if s[0] == x then 0
    else 1 + IndexOf(s[1..], x)
  }

  /** The sort key of `similiar_lyrics`: the album's position in the
      canonical order, or one past the end for an unlisted album. */
  function Rank(title: string): nat {
    IndexOf(AlbumOrder, title)
  }

  /** Listed albums rank by their position; every unlisted album shares the
      last rank. */
  lemma RankIsPosition(title: string)
    ensures Rank(title) <= |AlbumOrder|
    ensures Rank(title) < |AlbumOrder| <==> title in AlbumOrder
    ensures title in AlbumOrder ==> AlbumOrder[Rank(title)] == title
  {
  }

  lemma AlbumOrderLengths()
    ensures forall j | 0 <= j < |AlbumOrder| :: |AlbumOrder[j]| == [12, 8, 9, 3, 4, 10, 5, 8, 8, 9, 30][j]
  {
  }

  /** The spelling mismatch between the two tables, first half: the album
      that has a display class ranks after every listed album. */
  lemma TorturedPoetsClassed()
    ensures CssClass("The Tortured Poets Department") == "the-tortured-poets-department"
    ensures Rank("The Tortured Poets Department") == |AlbumOrder|
  {
    AlbumOrderLengths();
    assert |"The Tortured Poets Department"| == 29;
    assert "The Tortured Poets Department" !in AlbumOrder;
  }

  /** Second half: the spelling in the order has no display class. */
  lemma TorturedPoetsListed()
    ensures CssClass("The Tortured Poet's Department") == ""
    ensures Rank("The Tortured Poet's Department") == 10
  {
    AlbumOrderLengths();
    var listed := "The Tortured Poet's Department";
    assert |listed| == 30;
    assert AlbumOrder[10] == listed;
    assert listed !in AlbumCssClasses;
  }
}
