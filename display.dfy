/**
 * The fields shown for each recommended movie: the poster URL and the genre
 * text recovered from the combined `text` column.
 */
module Display {
  import opened Wrappers
  import opened PyStr

  /**
   * One row of the metadata table, reduced to the columns the display reads.
   * `posterPath` is `None` when the column is absent or its value is missing.
   */
  datatype Movie = Movie(title: string, text: string, posterPath: Option<string>)

  /** The image host every poster path is appended to. */
  const PosterBaseUrl: string := "https://image.tmdb.org/t/p/w500"

  /**
   * The poster URL: the base URL followed by the poster path when the row has
   * one, otherwise no URL. A URL that exists is non-empty, so the display's
   * truthiness test on it succeeds exactly when the row has a poster path.
   */
  function PosterUrl(posterPath: Option<string>): (url: Option<string>)
    ensures url.Some? <==> posterPath.Some?
    ensures url.Some? ==> |url.value| > 0
    ensures url.Some? ==> PosterPathOf(url.value) == posterPath
  {
    match posterPath
    case None => None
    case Some(path) => Some(PosterBaseUrl + path)
  }

  /** Recovers the poster path from a URL on the poster host. */
  function PosterPathOf(url: string): (path: Option<string>)
    ensures path.Some? <==> PosterBaseUrl <= url
    ensures path.Some? ==> PosterBaseUrl + path.value == url
  {
    if PosterBaseUrl <= url then Some(url[|PosterBaseUrl|..]) else None
  }

  /** Why `text.split(title)[1]` raises instead of producing genre text. */
  datatype GenreError =
    | EmptySeparator  // `str.split` refuses an empty separator
    | TitleNotFound   // the split has one piece, so there is no piece [1]

  /** `text.split(title)[1].split('[')[0].strip()`, or why it raises. */
  function GenreText(text: string, title: string): Result<string, GenreError> {
    if title == [] then
      Failure(EmptySeparator)
    else
      var pieces := Split(text, title);
      if |pieces| < 2 then Failure(TitleNotFound) else Success(Strip(Split(pieces[1], "[")[0]))
  }

  /**
   * The genre lookup raises for an empty title, and for a title that does not
   * occur in the text; otherwise it succeeds with text that has no whitespace
   * at either end.
   */
  lemma GenreTextSpec(text: string, title: string)
    ensures GenreText(text, title) == Failure(EmptySeparator) <==> title == []
    ensures GenreText(text, title) == Failure(TitleNotFound) <==> title != [] && !Contains(text, title)
    ensures GenreText(text, title).Success? ==> TightEnds(GenreText(text, title).value)
  {
    if title != [] {
      SplitSingleIffAbsent(text, title);
      var pieces := Split(text, title);
      if |pieces| >= 2 {
        StripSpec(Split(pieces[1], "[")[0]);
      }
    }
  }

  /** Genre text never contains `[`: it is cut before the first one. */
  lemma GenreTextHasNoBracket(text: string, title: string)
    ensures GenreText(text, title).Success? ==> '[' !in GenreText(text, title).value
  {
    if title != [] && |Split(text, title)| >= 2 {
      var head := Split(Split(text, title)[1], "[")[0];
      SplitPieceAvoidsSep(Split(text, title)[1], "[", 0);
      ContainsChar(head, '[');
      StripKeepsOut(head, '[');
    }
  }

  /** `text.split(title)[1]` runs from the first occurrence of `title` to the next or the end. */
  lemma SecondPiece(text: string, title: string, i: nat, j: nat)
    requires title != []
    requires OccursAt(text, title, i) && NoneBetween(text, title, 0, i)
    requires i + |title| <= j <= |text|
    requires OccursAt(text, title, j) || j == |text|
    requires NoneBetween(text, title, i + |title|, j)
    ensures |Split(text, title)| >= 2
    ensures Split(text, title)[1] == text[i + |title|..j]
  {
    SplitScanHead(text, title, 0, 0, i);
    SplitScanHead(text, title, i + |title|, i + |title|, j);
  }

  /** `seg.split('[')[0]` is `seg` cut before its first `[`, at `b`. */
  lemma BeforeBracket(seg: string, b: nat)
    requires b <= |seg| && '[' !in seg[..b]
    requires b == |seg| || seg[b] == '['
    ensures Split(seg, "[")[0] == seg[..b]
  {
    forall q: nat | q < b ensures !OccursAt(seg, "[", q) {
      OccursAtChar(seg, '[', q);
      assert seg[..b][q] == seg[q];
    }
    OccursAtChar(seg, '[', b);
    SplitScanHead(seg, "[", 0, 0, b);
  }

  /**
   * The genre text is the stretch of `text` that starts right after the
   * first occurrence of `title` at `i` and ends at the next occurrence of
   * `title` or at the end (`j`), cut before its first `[` (at offset `b`),
   * with surrounding whitespace removed.
   */
  lemma GenreTextSegment(text: string, title: string, i: nat, j: nat, b: nat)
    requires title != []
    requires OccursAt(text, title, i) && NoneBetween(text, title, 0, i)
    requires i + |title| <= j <= |text|
    requires OccursAt(text, title, j) || j == |text|
    requires NoneBetween(text, title, i + |title|, j)
    requires i + |title| + b <= j
    requires '[' !in text[i + |title|..i + |title| + b]
    requires i + |title| + b == j || text[i + |title| + b] == '['
    ensures GenreText(text, title) == Success(Strip(text[i + |title|..i + |title| + b]))
  {
    var seg := text[i + |title|..j];
    var head := text[i + |title|..i + |title| + b];
    SecondPiece(text, title, i, j);
    assert seg[..b] == head;
    BeforeBracket(seg, b);
  }
}
