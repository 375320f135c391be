# Movie searcher bot: top-K selection, genre clean-up and reply text

The bot is a Telegram bot. It loads a table of films from a CSV file with the columns `title`, `year`, `description` and `genre`. For each text message, it ranks the films by how similar their descriptions are to the message and replies with the five best. scikit-learn does the ranking (TF-IDF vectors and cosine similarity). This model covers the bot's own logic around that call:

- `PyText` (`text.dfy`): the Python `str.split` and `str.join` behaviour the bot relies on.
- `Dataset` (`dataset.dfy`): the film table as a class with one array per column. When the bot starts, it rewrites the `genre` column in place in two passes. The first pass turns each cell into text (`astype('str')`, where an empty cell becomes `"nan"`, as pandas 2.x converts it). The second pass keeps only the text before the first comma.
- `Search` (`search.dfy`): `find_similar_movies`. The similarity scores are an input, and so is numpy's ascending `argsort` of them. `IsArgsort` admits every order numpy may return, including any order among equal scores. The selection is the Python slice `ascending[-1:-k-1:-1]`, with CPython's clamping of negative-step bounds. The rows are then looked up by position (`iloc`). If scoring raised, or a position is outside the table, the result is empty.
- `Reply` (`reply.dfy`): the text `handle_user_query` sends. An empty result gives a fixed "not found" message. Otherwise the result goes through `to_dict()`, an insertion-ordered dict keyed by index label. Each row becomes a block `🎬 title (year)\ndescription\n---------------`. The blocks are joined with blank lines after the header `Похожие фильмы:\n`.

The table comes from `read_csv` with its default index, so a row's index label equals its position. Selected positions are pairwise distinct (`SearchRowsDistinct`), so the `to_dict` step keeps every row in result order (`ToDict`). That is why the reply has one block per selected film.

Behaviour of the code a reader might not expect:
- Ties in score are not broken by catalogue order. numpy's default `argsort` is not stable, so the model allows any tie order.
- `k <= 0` is not an error. `k = 0` selects nothing. A negative `k` selects `max(0, n + k)` rows, because of how Python slices with a negative step (`TopIndices`).
- A year column with any empty cell is read as floats, so the reply shows years like `1999.0` and an empty year as `nan`.
- All-zero scores do not give an empty result. Nothing is filtered by score, so `min(k, n)` rows come back whatever the scores are (`SearchCount`).
- An empty catalogue, or any other failure while vectorising or scoring, raises no error to the caller. It becomes an empty result and then the "not found" reply (`FindSimilarMovies`, `QueryReply`).

## Model

| member | source | states |
|---|---|---|
| `PyText.Split` | src/app.py:53 | `str.split` on one character returns at least one piece, and no piece contains the separator |
| `PyText.JoinSplit` | src/app.py:53 | splitting loses nothing: joining the pieces with the separator gives back the original text |
| `PyText.SplitHead` | src/app.py:53 | the first piece of `s.split(sep)` is a prefix of `s`, is all of `s` exactly when `sep` does not occur, and otherwise stops at the first `sep` |
| `PyText.FirstField` | src/app.py:53 | `s.split(',')[0]` has no comma, is a prefix of `s`, equals `s` exactly when `s` has no comma, and otherwise stops at the first comma |
| `PyText.Join` | src/app.py:99-102 | `sep.join(parts)`; its contract is stated by `PyText.JoinSplit` (it undoes `split`) and `PyText.JoinAppend` (join over a concatenation) |
| `PyText.JoinAppend` | src/app.py:99-102 | `sep.join` over two non-empty lists equals the two joins with one separator between them |
| `Dataset.AsStr` | src/app.py:49 | `str()` of a genre cell: text stays as it is and an empty cell prints as "nan"; its effect on the column is stated by `Dataset.MovieTable.GenresAsText` and `Dataset.NormalisedGenreSpec` |
| `Dataset.MovieTable.constructor` | src/app.py:42 | the table `read_csv` produces: its rows are exactly the records read, in order, held in newly allocated column arrays that the genre passes may then rewrite |
| `Dataset.MovieTable.GenresAsText` | src/app.py:49 | every genre cell becomes its text, with an empty cell becoming "nan"; the row count and every other column stay the same |
| `Dataset.MovieTable.KeepFirstGenre` | src/app.py:53 | every genre cell keeps only its text before the first comma, so no genre contains a comma afterwards; the row count and every other column stay the same |
| `Dataset.MovieTable.NormaliseGenres` | src/app.py:49-53 | both passes in order: each row's genre becomes its normalised form, and every other field and the row count stay the same |
| `Dataset.LoadTable` | src/app.py:42-53 | start-up: a new table whose rows are the records read, in order, each with its genre cell normalised; no genre holds a comma afterwards |
| `Dataset.NormalisedGenreSpec` | src/app.py:49-53 | a normalised genre is comma-free text and a prefix of the cell's printed form; it equals that form when there was no comma; an empty cell becomes "nan" |
| `Search.ClampForReverse` | src/app.py:72 | a slice bound adjusted for a negative step over length `n` always lies in `[-1, n - 1]` |
| `Search.ReverseSlice` | src/app.py:72 | `a[start:stop:-1]` equals the forward slice `a[stop + 1:start + 1]` read backwards, with both bounds adjusted, and is empty when the adjusted `stop` is not below the adjusted `start`; it has `max(0, start - stop)` entries after adjustment, entry `i` being `a[start - i]` |
| `Search.TopIndices` | src/app.py:72 | `ascending[-1:-k-1:-1]` has `min(k, n)` entries for `k >= 0` and `max(0, n + k)` entries for negative `k`; entry `i` is the `i`-th from the end of the ascending order |
| `Search.Select` | src/app.py:74 | `iloc` succeeds exactly when every position is inside the table; it then returns, in the given order, the row at each position with that position as its label |
| `Search.FindSimilarMovies` | src/app.py:65-77 | a scoring exception gives the empty result; otherwise the result is the table rows at the top-k positions, in slice order |
| `Search.TopIndicesAreTopK` | src/app.py:72 | for any argsort numpy may return, the selected positions are valid, pairwise distinct and in non-increasing score order, and every position left out scores no higher than any selected one |
| `Search.SearchCount` | src/app.py:72 | for `k >= 0` the search returns exactly `min(k, n)` rows, whatever the scores are |
| `Search.SearchRowsDistinct` | src/app.py:72-74 | every result row is the table row at its label, the label is a valid position, and no position appears twice |
| `Search.SearchDescending` | src/app.py:72 | scores never increase along the result |
| `Search.SearchIsTopK` | src/app.py:72 | every table position left out of the result scores no higher than every position in it |
| `Reply.DictPut` | src/app.py:91-98 | assigning into an insertion-ordered dict adds the key to the key set and keeps keys distinct; a new key is appended at the end; in a dict with distinct keys, an existing key keeps its place and takes the new value, and every other entry stays the same |
| `Reply.ToDict` | src/app.py:91-98 | `to_dict` followed by iteration over its keys gives distinct labels and the same label set, and is the identity on a result whose labels are already distinct |
| `Reply.ToDictKeepsLastRow` | src/app.py:91-98 | when labels repeat, a later row with the same label overwrites an earlier one: every entry of the dict is the last result row carrying its label |
| `Reply.Block` | src/app.py:100 | one film as `🎬 {title} ({year})\n{description}\n---------------`; its place in the reply is stated by `Reply.ReplyLayout` and `Reply.ReplyAppend` |
| `Reply.ReplyText` | src/app.py:86-103 | the reply for a search result; its contract is stated by `Reply.NotFoundExactlyWhenEmpty` (the "not found" text exactly for an empty result) and `Reply.ReplyLayout` (header plus one block per row, in order) |
| `Reply.HandleUserQuery` | src/app.py:81-103 | search with the default `k = 5`, then build the reply; its contract is stated by `Reply.QueryReply` |
| `Reply.NotFoundExactlyWhenEmpty` | src/app.py:86-89 | the "not found" message is sent if and only if the search result is empty; any other reply starts with the header |
| `Reply.ReplyLayout` | src/app.py:91-103 | for a result with distinct labels, the reply is the header followed by one block per row, in result order, joined by blank lines |
| `Reply.ReplyAppend` | src/app.py:99-102 | one more result row adds exactly one block, at the end, after a blank line |
| `Reply.QueryReply` | src/app.py:81-103 | end to end: a scoring exception gives the "not found" reply; for a non-empty table the reply lists the films at the `min(5, n)` best positions, best first, one block each |

## Left out

- TF-IDF fitting, query projection and cosine similarity (src/app.py:68-71) come from scikit-learn and use floating point. The scores are an input: a sequence of integers standing for any totally ordered score type, or `Raised` when that step throws.
- numpy's `argsort` is an input too. It is constrained only by `IsArgsort`: a permutation of the positions with scores non-decreasing along it. The model never picks a tie order.
- Downloading and reading the CSV file (`download_db`, `read_csv`, environment variables; src/app.py:8-46) are network and file I/O. The records read are an input: `LoadTable` builds the table from them and runs both genre passes.
- Bot construction, handler registration, `send_message` and `polling` (src/app.py:56-62, 80, 107-114) are transport. The model gives only the text that would be sent.
- The generic error reply (src/app.py:105-107) comes only from a missing `title` or `year` column or from a failing transport. The typed `Movie` record rules out the first, and the second is not modelled.
- A file without a `genre` column stops start-up with an uncaught KeyError at src/app.py:49. The typed `Movie` record rules this out as well, so `LoadTable` always succeeds.
- Logging throughout is left out.
- The printed forms of `title` and `year` are not derived from the cells. The model's `title` and `year` fields already hold the text the f-string at src/app.py:100 prints, so an empty title cell is the text "nan" there. An integer year prints as its digits. If any year cell is empty, `read_csv` reads the column as floats, so every year prints like `1999.0` and an empty one as `nan`. The field holds whichever text is printed.
- `AsStr` covers text and empty (NaN) cells only. It does not model how `astype('str')` prints numeric genre cells. It follows pandas 2.x, where `astype('str')` turns an empty cell into the text "nan". Under pandas 3 the cell stays missing, and the `split` at src/app.py:53 would stop start-up; the model does not cover that version.
