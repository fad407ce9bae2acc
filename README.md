# simtooreal: the feedback parser, pick recording and the retraining corpus

The simtooreal web app records robot picks in a PostgreSQL database. It also
stores customer questions that carry a topic label. A retraining script
merges those labelled questions into its seed corpus and runs a grid search
over a fixed hyperparameter grid. This project models the logic of those
three pieces and proves properties about it. The database is an object that
holds the four tables as sequences of rows.

- `wrappers.dfy` (`Wrappers`): `Option` and `Result`.
- `strings.dfy` (`Strings`): Python's `str.find`, `str.split(sep)` and
  `sep.join(parts)` for a non-empty separator. Split is a left-to-right scan
  for non-overlapping occurrences.
- `feedback.dfy` (`Feedback`): the parse expression of the `/feedback` route.
  - `topic = s.split("category: ")[1]` and
    `text = s.split("question: ")[1].split("category: ")[0]`.
  - A missing marker raises `IndexError`. It is modelled as a `ParseError`.
- `store.dfy` (`Store`): the rows of `robots`, `items`, `picks` and
  `questions`, with their serial ids.
  - `SELECT ... WHERE name = %s` + `fetchone()` is modelled as the
    first-match search `Lookup`. Names in a table are kept distinct, so the
    row found is the only one with that name.
  - The column projections are what the retraining script fetches.
- `app.dfy` (`App`): class `Database` with the tables and their serial
  counters.
  - `RecordPick` models `find_ids_and_insert_picks`. It gets or creates the
    robot, then the item, appends one pick and returns the status message.
  - `SubmitFeedback` models the POST branch of `feedback()`.
- `corpus.dfy` (`Corpus`): a pandas Series is a sequence of (index, value)
  entries.
  - `Concat` models `pandas.concat(objs, ignore_index=True, keys=...)`.
  - The corpus merge is shown both as it is written and as it is evidently
    intended.
- `grid.dfy` (`Grid`): the literal `parameters` grid and its Cartesian
  product of candidates.

Two details of the parse expression decide what is stored:

- **Trailing space.** The text is cut at `"category: "`, so the space before
  that marker stays in the text: `"foo question: What time do you open? category: Hours"`
  gives the text `"What time do you open? "` (`Feedback.TrailingSpaceKept`).
- **A second "question: ".** The text is the second part of
  `split("question: ")`, so it also ends at a second `"question: "`: the text
  runs to the first `"question: "` or `"category: "` after the first
  `"question: "` (`Feedback.TextIsSegment`).

## Model

| member | source | states |
|---|---|---|
| Strings.FindFrom | app.py:276 | The result is the first occurrence of the separator at or after `from`. There is none before it, and None means no occurrence at all from `from` on. |
| Strings.SplitSingle | app.py:276 | `split` yields one part exactly when the separator does not occur. That is the case where `[1]` raises. |
| Strings.SplitJoin | app.py:276 | Joining the parts of `split` with the separator gives back the original string. |
| Strings.SplitPartsFree | app.py:276 | No part produced by `split` contains the separator. |
| Strings.SplitPlaced | app.py:276 | `(x + sep + y).split(sep) == [x, y]` when neither x nor y contains sep and sep cannot overlap itself at its head. |
| Feedback.Parse | app.py:276 | A missing "category: " fails first (the topic is evaluated first). With the category but no "question: ", parsing fails on the question. On success, neither the topic nor the text contains a marker. |
| Feedback.TopicIsSegment | app.py:276 | The topic starts right after the first "category: ". It runs to the next "category: " or the end of the string. Anything after a second "category: " is dropped. |
| Feedback.TextIsSegment | app.py:276 | The text starts right after the first "question: ". It stops at the first following "question: " or "category: ", or at the end of the string. |
| Feedback.TextCut | app.py:276 | `rest.split("question: ")[0].split("category: ")[0]` is the longest prefix of rest in which no marker starts. |
| Feedback.ParseRoundTrip | app.py:276 | If prefix, text and topic contain neither marker, parsing `prefix + "question: " + text + "category: " + topic` gives back exactly (text, topic). |
| Feedback.TrailingSpaceKept | app.py:276 | An example submission parses to the text "What time do you open? ", trailing space included, and the topic "Hours". |
| Store.FirstNamed | app.py:53-54 | `fetchone()` returns the first row with the name: it has that name and no earlier row does. No row means no row has that name. |
| Store.LookupUnique | app.py:53-54 | When names are distinct, any row carrying the name is the row the lookup returns, whatever order the rows are read in. |
| Store.DistinctAppend | app.py:58 | Inserting a row for a name that had none keeps the names distinct. |
| Store.LookupAppendMissing | app.py:58-61 | After inserting a row for a name that had none, the re-query finds exactly that row. |
| Store.NamedAppend | app.py:58 | A robot or item row inserted with the sequence's next value keeps the ids increasing and below the advanced sequence. |
| Store.PickAppend | app.py:80 | The same for a pick row. |
| Store.QuestionAppend | app.py:276 | The same for a question row. |
| Store.QuestionTexts | grid_search_text_feature_extraction.py:150-151 | One fetched value per questions row, in row order: that row's text. |
| Store.QuestionTopics | grid_search_text_feature_extraction.py:166-167 | One fetched value per questions row, in row order: that row's topic. |
| App.GetOrCreateFinds | app.py:53-77 | After get-or-create the name is found. A name already present leaves the table unchanged. A missing name appends exactly one row whose id is fresh, and the lookup then finds that row. |
| App.GetOrCreateDistinct | app.py:53-77 | Get-or-create keeps the names of the robots or items table distinct. |
| App.PickMessageShape | app.py:89-92 | The reply is the success line alone exactly when neither name was created. Otherwise it begins with the first notice (the robot notice when the robot was created) and ends with "<br>" and the success line. |
| App.NoticesEmpty | app.py:89 | The collected notices are empty exactly when nothing was created. |
| App.Compose | app.py:38-92 | The `result` string is built step by step (notices, then "<br>" and the success line). It equals `PickMessage` for the two creation flags. |
| App.Database.SelectOrInsertRobot | app.py:53-64 | The robots table becomes `GetOrCreate` of the old table. `created` says whether the INSERT ran. The returned id is that of the row the re-query finds. |
| App.Database.SelectOrInsertItem | app.py:67-77 | The same for the items table. |
| App.Database.InsertPick | app.py:80 | Exactly one pick row is appended: the next serial id, the timestamp, the item id, then the robot id. |
| App.Database.RecordPick | app.py:37-92 | Robots and items are get-or-created and both names exist afterwards. Picks grows by one row carrying the found item id and robot id, in INSERT order. The other tables do not change. The reply is `PickMessage` of what was created. |
| App.Database.SubmitFeedback | app.py:257-278 | A parsed submission appends one question row (text, topic) and returns "submitted " + the submission. A parse error returns that error and leaves every table unchanged. |
| Corpus.CombineAsWrittenDropsRows | grid_search_text_feature_extraction.py:160 | As written, the one-key `concat` yields exactly the seed values with a 0..n-1 index. A non-empty fetch is therefore not seed + fetched. |
| Corpus.MergeValues | grid_search_text_feature_extraction.py:150-160 | The merged values are the seed values followed by the fetched rows. The length is the sum, the index is 0..n-1, and the entries match position by position. |
| Corpus.MergeEmpty | grid_search_text_feature_extraction.py:159-160 | Merging an empty fetch returns a range-indexed seed Series unchanged. |
| Corpus.MergeParity | grid_search_text_feature_extraction.py:150-176 | Suppose seed texts and topics have equal length, and so do the fetched texts and topics. Then the merged columns have equal length, and position i pairs text i with topic i. |
| Corpus.MergeStoreRows | grid_search_text_feature_extraction.py:166-176 | When both columns come from one questions table in one row order, each table row lands at the same position in both merged Series, with its own text and topic. |
| Grid.ParameterNames | grid_search_text_feature_extraction.py:118-128 | The grid's five parameter names, in their literal order. |
| Grid.ProductMember | grid_search_text_feature_extraction.py:118-128 | A sequence is in the Cartesian product exactly when it has one entry per choice list and takes each entry from its list. |
| Grid.ProductDistinct | grid_search_text_feature_extraction.py:118-128 | No combination is produced twice when no choice list repeats a value. |
| Grid.ProductLength | grid_search_text_feature_extraction.py:118-128 | The product has as many combinations as the product of the list lengths. |
| Grid.GridCandidates | grid_search_text_feature_extraction.py:118-128 | The candidates are exactly the assignments of one listed value to each of the five names. |
| Grid.GridDistinct | grid_search_text_feature_extraction.py:118-128 | Each candidate is visited once. |
| Grid.GridSize | grid_search_text_feature_extraction.py:41 | There are 3·2·1·2·2 = 24 candidates, and 5 folds make 120 fits. |

## Left out

- Flask routing, the GET branches, `render_template` and the HTML pages. These are presentation.
- psycopg2 connections, environment variables, autocommit, cursors and `close()`. The tables are abstracted as sequences held by `App.Database`.
- `current_timestamp` becomes the parameter `now`.
- The OpenAI completion route is a foreign API call.
- Concurrency between requests is not modelled. Each operation runs alone on the database.
- sklearn's pipeline, fitting, scoring, `predict` and joblib's `dump`/`load` are floating-point work inside an unseen library. The grid is modelled only as the candidates it defines.
- Grid.Candidates: sklearn's own enumeration order is not modelled. The lemmas state which candidates are visited and that none is visited twice.
- The retraining script's `while True` loop, its `git` commands and `sleep(86400)` are process plumbing.
- `pandas.read_csv('topics.csv')` is not modelled. The seed Series are parameters.
- test.py is an HTTP load generator: network I/O only.
- Corpus.MergeParity: the two fetches run without `ORDER BY`, so the code does not ensure their rows line up. This alignment is a precondition (`Corpus.MergeStoreRows` assumes one row order for both).
- Corpus.Merge: pandas would return a DataFrame, because the fetched rows are a DataFrame. The model keeps only the sequence of values and the index, not the column labels.
- Row order: a table is a sequence in insertion order, and every SELECT without `ORDER BY` is assumed to return its rows in that order. PostgreSQL does not promise this. For the name lookups it does not matter, because `App.Database.Valid` keeps names distinct.
- `cursor.fetchall()` always returns a list, so the `rows != None` guards are always taken. The model has no None fetch.
- App.Database.RecordPick: a missing query argument (`None` for a name) is not modelled. Names are strings.
- App.Database.RecordPick: formatting the ids with `str(f"{row[0]}")` and splicing them into the SQL text is modelled as passing the integer id.
- App.Database.SubmitFeedback: a parse error propagates as an exception, and Flask answers with an error page. The model returns the error and does not model the page.

## Findings

| source | as written | input that shows it | evidently intended | confidence | as-written member | corrected member |
|---|---|---|---|---|---|---|
| grid_search_text_feature_extraction.py:160 (also 176) | `pandas.concat([text_train, df1], ignore_index=True, keys=['question_text'])`: pandas pairs `keys` with the objects by `zip`, so a single key keeps only `text_train` | a questions table with one row: the combined texts equal the seed texts and the fetched question is missing | the seed Series followed by every fetched row, relabelled 0..n-1 (the same call without `keys`) | medium, not executed (relies on pandas pairing keys with objects by `zip`) | Corpus.CombineAsWrittenDropsRows | Corpus.MergeValues |
