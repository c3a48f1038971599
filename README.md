# Movie recommender: ranking and display core

`movie_ui.py` is a Streamlit page for recommending movies. The user describes
the movies they like and presses "Get Recommendations". A blank description
gets a warning. Otherwise the description is embedded, each catalog movie
gets a cosine similarity, and the five most similar movies are shown best
first. Each movie is shown with its title, its poster, the genre text cut
out of the row's combined `text` column, and its match score.

This project models the logic of that page that does not depend on I/O:

- `Ranking`: the selection `similarities.argsort()[-5:][::-1]`. An argsort
  is any permutation of the row positions in non-decreasing order of score.
  Every property is proved for every such order, so nothing depends on how
  NumPy orders ties. `ArgSort` is one concrete argsort, a stable insertion
  sort, and only serves to show that one exists. The button handler takes
  the argsort order as an input beside the scores, so any order NumPy may
  return is covered.
- `PyStr`: the Python string operations the page uses. `str.strip()` uses
  Python's whitespace set and `str.split(sep)` splits on every
  non-overlapping occurrence, scanning left to right.
- `Display`: the poster URL and the genre text
  `text.split(title)[1].split('[')[0].strip()`. The genre lookup's two ways
  of raising are modelled as values of a `Result`.
- `Recommender`: the blank-query guard, the display loop, and the button
  handler that joins them.

The similarity scores, their argsort order and the metadata table are
inputs: a `seq<real>`, a `seq<nat>` and a `seq<Movie>`, aligned by position.

## Model

| member | source | states |
|---|---|---|
| `Ranking.ArgSort` | movie_ui.py:49 | the result is a permutation of the positions of `scores` in non-decreasing order of score |
| `Ranking.Reverse` | movie_ui.py:49 | `[::-1]`: same length, and entry `i` is the input's entry `n - 1 - i` |
| `Ranking.TopIndices` | movie_ui.py:49 | `order[-k:][::-1]` for `k >= 1`: `min(k, N)` entries, the `i`-th being `order[N - 1 - i]`, and every one of the last `min(k, N)` entries of `order` is kept |
| `Ranking.TopIndicesOfArgSort` | movie_ui.py:49 | for every argsort order, whatever its tie order, the reversed tail is a top-k: length `min(k, N)`, valid and distinct positions, non-increasing scores, and no left-out position scoring above a kept one |
| `Ranking.LeftOutScoresLower` | movie_ui.py:49 | a position outside the reversed tail of an ascending order scores no higher than any position in it |
| `Ranking.ReversedTailOrdered` | movie_ui.py:49 | the reversed tail of a distinct ascending order is distinct, in range and in non-increasing order of score |
| `Ranking.TopK` | movie_ui.py:49 | `argsort()[-k:][::-1]` is a top-k in the sense above |
| `Ranking.TopKFirstIsMaximum` | movie_ui.py:49 | on a non-empty catalog, the first selected position has the highest score in the catalog |
| `Ranking.UniqueMaximumRanksFirst` | movie_ui.py:49 | a strictly highest-scoring position is always selected first |
| `Ranking.TopKPrefix` | movie_ui.py:49 | every prefix of a top-k is valid, distinct and best first |
| `Ranking.TopKScoreAtMost` | movie_ui.py:49 | for two top-k selections of the same scores, the score at rank `i` of one is at most the score at rank `i` of the other |
| `Ranking.TopKScoresDetermined` | movie_ui.py:49 | any two top-k selections for the same scores have the same length and the same score at every rank, so the tie order never changes the scores shown |
| `Ranking.TopKUniqueWithoutTies` | movie_ui.py:49 | when no two scores are equal, there is exactly one top-k selection |
| `PyStr.TrimStart` | movie_ui.py:84 | the leading half of `strip()`: drops whitespace from the front; it has no contract of its own, and `PyStr.TrimStartSpec` states what it returns |
| `PyStr.TrimStartSpec` | movie_ui.py:84 | removing leading whitespace leaves a suffix that is preceded only by whitespace and does not itself start with whitespace |
| `PyStr.TrimEnd` | movie_ui.py:84 | the trailing half of `strip()`: drops whitespace from the back; it has no contract of its own, and `PyStr.TrimEndSpec` states what it returns |
| `PyStr.TrimEndSpec` | movie_ui.py:84 | removing trailing whitespace leaves a prefix that is followed only by whitespace and does not itself end with whitespace |
| `PyStr.Strip` | movie_ui.py:84 | `s.strip()` as leading then trailing whitespace removal; it has no contract of its own, and `PyStr.StripSpec` and `PyStr.StripCharacterized` state what it returns |
| `PyStr.StripSpec` | movie_ui.py:84 | `s.strip()` is a piece of `s` with only whitespace around it, and it neither starts nor ends with whitespace |
| `PyStr.StripCharacterized` | movie_ui.py:84 | only one piece of `s` has only whitespace around it and no whitespace at either end, and `s.strip()` is that piece |
| `PyStr.StripEmptyIffAllSpace` | movie_ui.py:38 | `s.strip()` is empty exactly when every character of `s` is whitespace |
| `PyStr.StripKeepsOut` | movie_ui.py:84 | stripping never introduces a character that was not in the input |
| `PyStr.SplitScan` | movie_ui.py:84 | the left-to-right scan behind `str.split`: from any scan position it yields at least one piece |
| `PyStr.Split` | movie_ui.py:84 | `s.split(sep)` with a non-empty separator always has at least one piece |
| `PyStr.SplitScanHead` | movie_ui.py:84 | when the next occurrence of the separator is at `j`, the current piece ends at `j`, and splitting goes on just after that occurrence; with no occurrence left, the rest is the last piece |
| `PyStr.SplitSingleIffAbsent` | movie_ui.py:84 | `s.split(sep)` has exactly one piece exactly when `sep` does not occur in `s` |
| `PyStr.SplitScanJoin` | movie_ui.py:84 | joining the pieces of a split with the separator gives back the text that was split |
| `PyStr.SplitJoin` | movie_ui.py:84 | `sep.join(s.split(sep)) == s` |
| `PyStr.SplitScanPieceAvoidsSep` | movie_ui.py:84 | no piece of a split contains the separator |
| `PyStr.SplitPieceAvoidsSep` | movie_ui.py:84 | no piece of `s.split(sep)` contains `sep` |
| `Display.PosterUrl` | movie_ui.py:62-65 | a URL exists exactly when the row has a poster path, it is non-empty (so the truthiness test at line 68 passes), and the poster path can be read back from it |
| `Display.PosterPathOf` | movie_ui.py:55 | a URL is on the poster host exactly when it starts with the base URL, and then it is the base URL followed by the recovered path |
| `Display.GenreText` | movie_ui.py:84 | `text.split(title)[1].split('[')[0].strip()`, with the two ways it raises as failures; it has no contract of its own, and `Display.GenreTextSpec`, `Display.GenreTextHasNoBracket` and `Display.GenreTextSegment` state what it returns |
| `Display.GenreTextSpec` | movie_ui.py:84 | the genre lookup raises for an empty title and for a title absent from the text, in both directions; a lookup that succeeds returns text with no whitespace at either end |
| `Display.GenreTextHasNoBracket` | movie_ui.py:84 | genre text never contains `[` |
| `Display.SecondPiece` | movie_ui.py:84 | `text.split(title)[1]` runs from just after the first occurrence of `title` up to its next occurrence, or to the end |
| `Display.BeforeBracket` | movie_ui.py:84 | `seg.split('[')[0]` is `seg` cut before its first `[` |
| `Display.GenreTextSegment` | movie_ui.py:84 | the genre text is the text after the first occurrence of the title, cut at the next occurrence or at the first `[`, whichever comes first, with surrounding whitespace removed |
| `Recommender.IsBlank` | movie_ui.py:38-39 | `not user_input.strip()` holds exactly when the query is nothing but whitespace |
| `Recommender.ShowRecommendations` | movie_ui.py:57-84 | the display loop shows the ranked rows in order, each with its own row's score, title, poster URL and genre result; all but the last shown have genre text; it stops early only after a movie whose genre lookup raises |
| `Recommender.ShownPrefix` | movie_ui.py:57 | the shown rows are a prefix of the ranking, and each movie is shown with `similarities[movie_id]` |
| `Recommender.ShownAllWhenGenresOk` | movie_ui.py:84 | when no row's genre lookup raises, every ranked movie is shown |
| `Recommender.ShownRanked` | movie_ui.py:49-57 | a page showing a prefix of a top-k is ranked: at most `k` distinct rows, non-increasing scores, each its own row's score, a best match first; a page showing the whole of it lists a top-k |
| `Recommender.Recommend` | movie_ui.py:37-86 | for any argsort order of the scores: a warning exactly for a blank query, with no ranking; otherwise the shown movies are `order[-5:][::-1]` through the display loop, the page is ranked, and when no genre lookup raises the rows shown are exactly a top-five selection of length `min(5, N)` |

## Left out

- The Streamlit UI is not modelled: the title, instructions, text area, button, spinner, success message, subheaders, expander and progress bar. Neither are `st.cache_resource` and `st.cache_data`. Together they are rendering and caching, with no logic to model.
- Reading the CSV and the `.npy` file, and loading the sentence-transformer model (lines 11-22), are file I/O.
- `model.encode` and `cosine_similarity` (lines 43-46) are numerical library calls. The scores are taken as given, and the floating-point behaviour of computing them is not modelled.
- The poster HTTP request, the status-code check and the PIL decoding (lines 68-80) are network I/O. Only the URL is modelled, not whether the poster appears.
- Score formatting (`{score:.0%}`) and `st.progress(int(score * 100))` are left out. The score is carried as an unbounded `real`. `st.progress` raises for a value outside 0..100, so a score of -0.01 or less (a negative cosine similarity) ends the page after that movie's score text. The model does not capture this and goes on to the next movie.
- `metadata.iloc[top_indices]` at line 50 is not modelled because its result is never used. `metadata.iloc[int(movie_id)]` is indexing into the row sequence.
- `Movie.posterPath` is `None` both when the column is absent and when the value is a missing value (`pd.notna` false). A non-string poster value that is present is not distinguished.
- A `title` or `text` cell that is not a string (pandas reads an empty cell as NaN, and `str.split` then raises a different error) is not modelled. Both are taken to be strings.
- `Ranking.TopK`: the model requires `k >= 1`. For `k = 0`, Python's `a[-0:]` keeps the whole array, which is not a top-0. The page always uses 5.
- `Ranking.ArgSort` is one particular order, stable on ties. NumPy's default sort is not stable. Properties about the ranking are therefore stated for every order satisfying `IsArgSort`, and `Recommender.Recommend` takes the order as an input, so the tie order of the page is left open.
- Reversing an argsort reverses whatever order NumPy gave tied scores. No tie-break by index is applied, and the model applies none.
- On an empty catalog, `cosine_similarity` raises, because sklearn rejects an array with no rows. The model instead returns an empty page. A query embedding whose width differs from the stored embeddings' also makes `cosine_similarity` raise; the model has no embeddings, so this case does not arise in it.
- When a genre lookup raises, the page stops there, because the exception ends the script. That movie's title and poster have already been shown, so the model keeps it as the last record, with the failure as its genre result. Its score (lines 85-86) is never displayed, although the record still carries it.
