# Course recommender: query understanding and ranking core

This project models, in Dafny, the ranking core of a Streamlit course
recommender (`app.py`). The core has four pure parts:

- **Query normaliser** (`preprocess_query`). It lower-cases the raw query, extracts the maximal runs of ASCII letters, and joins them with single spaces.
- **Catalog/matrix alignment** (the truncation block of `load_artifacts`). When the course table and the TF-IDF matrix disagree in row count, both are cut to their common prefix and a warning is raised.
- **Ranking engine** (`rank_courses`):
  - it returns nothing for an empty processed query;
  - it attaches one similarity score per course, ignoring extra scores and padding missing ones with 0.0;
  - it applies the difficulty, minimum-rating and topic filters;
  - it returns nothing when no course survives;
  - it sorts stably by similarity, then rating (a missing rating sorts last), then the quantum flag, all descending;
  - it keeps `head(top_k)`.
- **Skill-list normaliser** (`normalize_skills`). It turns a stored skills cell of any shape into a list of non-empty, stripped names.

Modules, one per component:

| file | module | models |
|---|---|---|
| optional.dfy | `Optional` | a possibly missing value (a NaN rating) |
| text.dfy | `Text` | ASCII `str.lower()`, Python whitespace, `str.strip()` |
| sequences.dfy | `Sequences` | strictly ordered sequences and their uniqueness |
| query.dfy | `Query` | `preprocess_query` |
| skills.dfy | `Skills` | `normalize_skills` |
| catalog.dfy | `Catalog` | the course record, the alignment in `load_artifacts` |
| scoring.dfy | `Scoring` | score attachment and the three filters |
| ordering.dfy | `Ordering` | the three-key comparator and the stable sort |
| engine.dfy | `Engine` | `head`, `rank_courses`, and the request path from raw query to result |

Row positions matter for stability, so each scored row carries its catalog position (`Scored.row`). This is the implicit index the source resets with `reset_index(drop=True)`.

The similarity scores come from the vectorizer and `cosine_similarity`. `Rank` takes them as an input `seq<real>`. `Recommend` takes an abstract function `similarity(normalised query, matrix row)` instead.

Three behaviours of the code are kept as written:

- A missing rating sorts below an actual rating of 0 (pandas' `na_position='last'`). It is not treated as 0 in the sort, even though it counts as 0 for the minimum-rating filter.
- `top_k` is any integer. A negative value drops rows from the end, as pandas' `head` does.
- A `min_rating` of exactly 0 switches the rating filter off (`if min_rating:`). A negative minimum switches it on.

## Model

| member | source | states |
|---|---|---|
| Query.Normalize | app.py:66-69 | the output has only lower-case letters and single spaces, with none at either end; it is empty exactly when the input has no ASCII letter; its tokens are the letter runs of the lower-cased input |
| Query.NormalizeTokens | app.py:68-69 | the output's tokens are the raw query's maximal letter runs, lower-cased, in left-to-right order |
| Query.NormalizeIdempotent | app.py:68-69 | normalising a normalised query returns it unchanged |
| Query.RunsOfJoin | app.py:68-69 | splitting space-joined tokens back into letter runs gives the tokens back (`findall` after `join` is the identity) |
| Query.RunsEmptyIff | app.py:68 | `findall` finds no token exactly when the text has no ASCII letter |
| Query.JoinCanonical | app.py:69 | joining lower-case tokens with single spaces gives a canonical string, empty only for no tokens |
| Query.RunsOfLower | app.py:68 | lower-casing before extraction finds the same runs, lower-cased |
| Query.RunsConcat | app.py:68 | the runs `findall` returns, laid end to end, are exactly the letters of the text in their original order: no letter is lost and nothing else is kept |
| Query.RunsSplitAt | app.py:68 | every non-letter separates: the runs of a text are the runs before any non-letter position followed by the runs after it, so no token spans a non-letter |
| Query.NormalizeExamples | app.py:68-69 | "Quantum-2024!!" becomes "quantum" and a blank query becomes "" |
| Text.Strip | app.py:52 | the stripped string has no whitespace at either end, and is empty exactly when the input is all whitespace |
| Text.StripIsSlice | app.py:52 | what strip removes is whitespace at the two ends only; the rest is a contiguous slice of the input |
| Text.StripTrimmed | app.py:59 | stripping an already stripped string changes nothing |
| Skills.NormalizeSkills | app.py:47-62 | a missing value or an unsupported type gives []; a string gives at most one element, its stripped text, and [] exactly when it is blank; a list, tuple or array is cleaned element by element; no element is empty or padded |
| Skills.StringKeepsCase | app.py:51-59 | a string comes back as its stripped text with its letter case kept; whenever that text has an upper-case letter, the same text given inside a list comes back different (lower-cased) |
| Skills.CleanEachClean | app.py:59-61 | every element produced from a list or tuple is non-empty, stripped and free of upper-case letters |
| Skills.CleanEachSources | app.py:59-61 | every produced element is the stripped, lower-cased form of a non-blank input element |
| Skills.CleanEachKeeps | app.py:59-61 | every non-blank input element appears, stripped and lower-cased |
| Skills.NormalizeSkillsAgain | app.py:58-61 | feeding the output back as a list only lower-cases it, so list input is normalised idempotently |
| Catalog.Align | app.py:32-42 | both sides end with length min(matrix rows, table rows), each a prefix of its original; the warning is raised exactly when the counts differ |
| Catalog.AlignStable | app.py:36-42 | aligning an aligned pair changes nothing and raises no warning |
| Scoring.AttachScores | app.py:248-257 | every course gets exactly one score: row i gets scores[i] when i is in range and 0.0 otherwise; rows stay in catalog order |
| Scoring.AttachedMembers | app.py:248-257 | the scored rows are exactly the catalog's courses at their own positions with their own scores |
| Scoring.Keep | app.py:260-265 | a boolean-mask selection keeps exactly the rows satisfying the mask, never adds rows and keeps their order |
| Scoring.ApplyFilters | app.py:259-265 | a row survives exactly when every active filter accepts it (conjunction); rows and scores are not altered and order is kept |
| Scoring.FilteredCount | app.py:259-265 | the number of surviving rows equals the number of catalog courses that pass the filters, whatever the scores |
| Scoring.KeepCount | app.py:260-265 | selecting on a course predicate keeps as many rows as there are courses satisfying it |
| Ordering.SortRows | app.py:271-275 | the sorted rows are a permutation of the filtered rows |
| Ordering.SortRowsSorted | app.py:271-275 | rows given in catalog order come out ordered by key, with ties kept in catalog order |
| Ordering.InsertSorted | app.py:271-275 | inserting a row that precedes all others in catalog order keeps the ranking order |
| Ordering.StableSortUnique | app.py:271-275 | any arrangement of the rows that is ordered by key and keeps catalog order on ties equals the sort's result |
| Ordering.KeyTrichotomy | app.py:271-273 | of two rows, exactly one outranks the other or they share all three keys |
| Ordering.SortedMeaning | app.py:271-275 | in the ranking order no later row outranks an earlier one, and rows with equal keys are in catalog order |
| Ordering.MissingRating | app.py:262-273 | a missing rating passes the rating filter exactly as a rating of 0 does, but sorts below an actual 0 |
| Engine.Ranked | app.py:259-275 | the eligible rows, sorted; there are as many as the courses passing the filters |
| Engine.Rank | app.py:227-276 | empty for an empty query; otherwise min(top_k, passing courses) rows, or the pandas `head` length for negative top_k; every row is an eligible catalog row with its own score; no later row outranks an earlier one; equal keys keep catalog order; every eligible row left out is preceded by every returned row |
| Engine.Recommend | app.py:476-494 | a query without letters gives no result; every result row lies in the aligned prefix of both artifacts, carries its course and the similarity of its matrix row, and passes the filters; for a query with letters the size is `head(top_k)` of the passing aligned courses; rows come in ranking order with ties in catalog order; no eligible aligned row left out ranks above a returned one |
| Engine.TwoCourseScenario | app.py:271-276 | with two courses, no filters and the first scoring higher, top 2 returns both, the better-scoring one first |

## Left out

- Streamlit UI, session state, feedback counters, query history, timing and charts (app.py:280-905). These are presentation and I/O.
- Reading the artifacts with `read_parquet`, `joblib.load` and `load_npz` (app.py:28-30), and the `st.cache_*` decorators. These are file I/O. Matrix rows are an opaque type `M`, and the warning is a boolean in the `Aligned` value, not a message.
- `vectorizer.transform` and `cosine_similarity` (app.py:245-246). These are foreign floating-point numerics. Scores are an input sequence, or an abstract function in `Recommend`.
- `craft_relevance_sentence` and `uganda_context_sentence` (app.py:72-224). They produce presentation text and have no influence on ranking.
- Course Explorer search and pagination (app.py:744-767). This is UI code.
- Query.Normalize: lower-cases ASCII only. Python's Unicode `lower()` can map a few non-ASCII characters (the Kelvin sign, dotted capital I) to ASCII letters, and that is not modelled.
- Skills.NormalizeSkills: lower-cases ASCII only, for the same reason. List elements are given as their `str()` rendering. A failing `tolist()` falls back to `list()` with the same result, so it is folded into the array case.
- Floating-point NaN in scores or in `min_rating` is not modelled. Scores and ratings are mathematical reals, and a missing rating is `None`.
- A missing difficulty or topic value is not modelled. These are plain strings, so `isin` is list membership.
