/**
 * One press of "Get Recommendations": the blank-query guard, the top five
 * by similarity, and the fields shown for each of them in rank order.
 * The similarity scores and their argsort order are inputs; computing them
 * is not modelled.
 */
module Recommender {
  import opened Wrappers
  import opened PyStr
  import opened Ranking
  import opened Display

  /**
   * What the page shows for one recommended movie. For the last movie of a
   * page cut short by a genre lookup that raises, the page never reaches
   * its score, which the record still carries.
   */
  datatype Recommendation = Recommendation(
    index: nat,                               // the catalog row, `movie_id`
    score: real,                              // its similarity, `score`
    title: string,                            // the subheader
    posterUrl: Option<string>,                // the URL the poster is fetched from, if any
    genres: Result<string, GenreError>)       // the genre text, or why computing it raised

  /**
   * The page after the button is pressed: a warning for a blank query,
   * otherwise the movies shown, in order.
   */
  datatype Response = Warning | Results(shown: seq<Recommendation>)

  /** `not user_input.strip()`: the query has nothing but whitespace. */
  function IsBlank(query: string): (b: bool)
    ensures b <==> AllSpace(query)
  {
    StripEmptyIffAllSpace(query);
    Strip(query) == []
  }

  /** `rec` is what the page shows for catalog row `i`. */
  predicate DisplayedAs(rec: Recommendation, scores: seq<real>, metadata: seq<Movie>, i: nat)
    requires |metadata| == |scores| && i < |scores|
  {
    && rec.index == i
    && rec.score == scores[i]
    && rec.title == metadata[i].title
    && rec.posterUrl == PosterUrl(metadata[i].posterPath)
    && rec.genres == GenreText(metadata[i].text, metadata[i].title)
  }

  /** The catalog rows of the movies shown. */
  function Indices(shown: seq<Recommendation>): (p: seq<nat>)
    ensures |p| == |shown|
    ensures forall i :: 0 <= i < |shown| ==> p[i] == shown[i].index
  {
    if shown == [] then [] else [shown[0].index] + Indices(shown[1..])
  }

  /**
   * `shown` is what the display loop leaves on the page for the ranked rows
   * `top`: each movie's title and poster are shown before its genre text is
   * computed, and when that raises the script stops there. So the movies
   * shown are those of `top` in order, up to and including the first whose
   * genre text fails, or all of them.
   */
  predicate ShownFor(scores: seq<real>, metadata: seq<Movie>, top: seq<nat>, shown: seq<Recommendation>)
    requires |metadata| == |scores| && InRange(top, |scores|)
  {
    && |shown| <= |top|
    && (|top| >= 1 ==> |shown| >= 1)
    && (forall i :: 0 <= i < |shown| ==> DisplayedAs(shown[i], scores, metadata, top[i]))
    && (forall i :: 0 <= i < |shown| - 1 ==> shown[i].genres.Success?)
    && (|shown| < |top| ==> shown[|shown| - 1].genres.Failure?)
  }

  /** The display loop over `zip(similarities[top_indices], top_indices)`. */
  method ShowRecommendations(scores: seq<real>, metadata: seq<Movie>, top: seq<nat>)
    returns (shown: seq<Recommendation>)
    requires |metadata| == |scores| && InRange(top, |scores|)
    ensures ShownFor(scores, metadata, top, shown)
  {
    shown := [];
    var i := 0;
    while i < |top|
      invariant i <= |top| && |shown| == i
      invariant forall k :: 0 <= k < i ==> DisplayedAs(shown[k], scores, metadata, top[k])
      invariant forall k :: 0 <= k < i ==> shown[k].genres.Success?
    {
      var movie := metadata[top[i]];
      var rec := Recommendation(top[i], scores[top[i]], movie.title, PosterUrl(movie.posterPath),
                                GenreText(movie.text, movie.title));
      shown := shown + [rec];
      if rec.genres.Failure? {
        return;
      }
      i := i + 1;
    }
  }

  /** The genre text of `movie` can be computed. */
  predicate GenreOk(movie: Movie) {
    GenreText(movie.text, movie.title).Success?
  }

  /** Every catalog row has genre text that can be computed. */
  predicate AllGenresOk(metadata: seq<Movie>) {
    forall j :: 0 <= j < |metadata| ==> GenreOk(metadata[j])
  }

  /** The movies shown are a prefix of `top`, each with its own row's score. */
  lemma ShownPrefix(scores: seq<real>, metadata: seq<Movie>, top: seq<nat>, shown: seq<Recommendation>)
    requires |metadata| == |scores| && InRange(top, |scores|)
    requires ShownFor(scores, metadata, top, shown)
    ensures |shown| <= |top| && Indices(shown) == top[..|shown|]
    ensures |top| >= 1 ==> |shown| >= 1
    ensures forall i :: 0 <= i < |shown| ==> shown[i].index < |scores| && shown[i].score == scores[shown[i].index]
  {
    forall i | 0 <= i < |shown|
      ensures Indices(shown)[i] == top[..|shown|][i]
      ensures shown[i].index < |scores| && shown[i].score == scores[shown[i].index]
    {
      assert DisplayedAs(shown[i], scores, metadata, top[i]);
    }
  }

  /** When no genre lookup raises, every ranked movie is shown. */
  lemma ShownAllWhenGenresOk(scores: seq<real>, metadata: seq<Movie>, top: seq<nat>, shown: seq<Recommendation>)
    requires |metadata| == |scores| && InRange(top, |scores|)
    requires ShownFor(scores, metadata, top, shown)
    ensures AllGenresOk(metadata) ==> |shown| == |top|
  {
    if AllGenresOk(metadata) && |shown| < |top| {
      assert false;
    }
  }

  /**
   * The page is ranked: at most `k` movies, distinct rows, each shown with
   * its own row's score, scores that never increase down the page, and the
   * first movie a best match in the whole catalog.
   */
  predicate RankedPage(scores: seq<real>, k: nat, shown: seq<Recommendation>) {
    && |shown| <= Min(k, |scores|)
    && (forall i :: 0 <= i < |shown| ==> shown[i].index < |scores| && shown[i].score == scores[shown[i].index])
    && Distinct(Indices(shown))
    && (forall i, j :: 0 <= i < j < |shown| ==> shown[i].score >= shown[j].score)
    && (|scores| >= 1 ==> |shown| >= 1 && forall j :: 0 <= j < |scores| ==> scores[j] <= shown[0].score)
  }

  /**
   * A page that shows a prefix of a top-k ranking is ranked; when it shows
   * the whole of it, its rows are a top-k ranking themselves.
   */
  lemma ShownRanked(scores: seq<real>, k: nat, top: seq<nat>, shown: seq<Recommendation>)
    requires k >= 1 && IsTopK(scores, k, top)
    requires |shown| <= |top| && Indices(shown) == top[..|shown|]
    requires |top| >= 1 ==> |shown| >= 1
    requires forall i :: 0 <= i < |shown| ==> shown[i].index < |scores| && shown[i].score == scores[shown[i].index]
    ensures RankedPage(scores, k, shown)
    ensures |shown| == |top| ==> IsTopK(scores, k, Indices(shown))
  {
    TopKPrefix(scores, k, top, |shown|);
    var p := Indices(shown);
    forall i, j | 0 <= i < j < |shown| ensures shown[i].score >= shown[j].score {
      assert p[i] == shown[i].index && p[j] == shown[j].index;
    }
    if |scores| >= 1 {
      TopKFirstIsMaximum(scores, k, top);
      assert p[0] == top[0];
    }
  }

  /**
   * The button handler. `order` is what `similarities.argsort()` returns:
   * any order of the rows by non-decreasing score, with NumPy free to put
   * tied rows in any order (`ArgSort` shows one always exists). A blank
   * query gets the warning and no ranking. Otherwise the movies shown are
   * taken from `order[-5:][::-1]`, best first, each with its own row's title,
   * poster, genre text and score; when no genre lookup raises, they are
   * exactly a top-five ranking.
   */
  method Recommend(query: string, scores: seq<real>, order: seq<nat>, metadata: seq<Movie>) returns (r: Response)
    requires |metadata| == |scores|
    requires IsArgSort(scores, order)
    ensures r.Warning? <==> AllSpace(query)
    ensures r.Results? ==> ShownFor(scores, metadata, TopIndices(order, TopCount), r.shown)
    ensures r.Results? ==> RankedPage(scores, TopCount, r.shown)
    ensures r.Results? && AllGenresOk(metadata) ==> IsTopK(scores, TopCount, Indices(r.shown))
  {
    if IsBlank(query) {
      return Warning;
    }
    TopIndicesOfArgSort(scores, order, TopCount);
    var top := TopIndices(order, TopCount);
    var shown := ShowRecommendations(scores, metadata, top);
    ShownPrefix(scores, metadata, top, shown);
    ShownAllWhenGenresOk(scores, metadata, top, shown);
    ShownRanked(scores, TopCount, top, shown);
    r := Results(shown);
  }
}
