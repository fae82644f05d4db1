# Bathroom design search, modelled in Dafny

This project models the search core of a small retrieval application over a
catalog of bathroom photographs. A catalog record names a style, an image
file and a generated title and description. The Dafny model covers five
Python files:

- The rule-based query parser `get_structured_query`. It splits a query at the
  first negative trigger phrase ("but not", "without", ...) into a positive
  clause and a negative clause. `search.py` and `design/search.py` hold
  copies with the same statements, differing only in comments, modelled once
  in `QueryParser`.
- Score combination: positive similarity minus the weighted negative
  similarity (`Ranking`, `Similarity`).
- The web back end's search (`search.py`, module `ThresholdSearch`):
  - a lenient load that reconciles the catalog with the embedding matrix;
  - a walk over every row from the highest final score down that keeps at
    most six rows scoring below 0.5.
- The design-mode search (`design/search.py`, module `FixedKSearch`):
  - a strict load that stops on a count mismatch;
  - `np.argsort(...)[-top_k:][::-1]`;
  - the command-line turn, which filters the results afterwards.
- The offline builders:
  - the design-mode cleaning pass (`design/index.py`, module `DesignIndex`);
  - the path-rebasing pass and description gathering (`indexer.py`, module
    `Indexer`).
- The `POST /api/search` handler of `app.py` (module `Api`).

The parser compiles the regular expression `' ' + '|'.join(triggers) + ' '`,
with each trigger passed through `re.escape`. Escaping only puts a backslash
before each space inside a trigger, and an escaped space still matches a
space, so the model works with the unescaped text. Since `|` binds loosest, only the first trigger gets a leading space and only
the last one gets a trailing space. The model derives those eight literal
alternatives from the pattern text (`AlternativesOfPattern`). It then states
leftmost-first regex search over them. The source comment at `search.py:92-93`
says every trigger is surrounded by spaces. The code does not do that, and
the model follows the code: "except" matches inside "exceptional"
(`ExceptInsideWord`).

Some operations are parameters rather than code:

- Sentence encoding and cosine similarity are one parameter, a `Scorer`. It
  returns one similarity per stored row, or `None` when it raises; the searches
  then return an empty list.
- `np.argsort` is a parameter constrained to return a permutation along which
  the scores never decrease. `Ranking.ArgsortUpTo` shows that such a
  permutation always exists.
- The file system's existence test is a parameter of the cleaning pass.
- The path separator is a parameter of the path-building functions.

## Model

| member | source | states |
|---|---|---|
| QueryParser.PatternSplit | search.py:101-103 | for any words without a bar, padding the bar-joined words on both sides gives alternatives that are the words themselves, with the padding on the first and on the last one only |
| QueryParser.AlternativesOfPattern | search.py:94-104 | the compiled pattern text, cut at its bars, is exactly " but not", "without", "and not", "except", "do not have", "don't have", "not including", "excluding " in that order |
| QueryParser.FirstAltChoosesFirst | search.py:101-106 | at one position the alternatives are tried left to right: the one chosen matches and none before it does; when none is chosen, none matches |
| QueryParser.SearchFromFindsFirst | search.py:106 | the scan from a position returns the first later position where an alternative matches, with no match strictly between; when it returns nothing, nothing matches from there to the end |
| QueryParser.SearchWith | search.py:106 | a match that `search` reports is the leftmost one, with the first alternative that matches there; it reports nothing exactly when no alternative matches anywhere |
| QueryParser.LeftmostUnique | search.py:106 | at most one match satisfies the leftmost-first rule, so the reported match is determined by the query |
| QueryParser.Parse | search.py:84-132 | `get_structured_query` with the eight trigger alternatives: a query with no match keeps the whole query as the positive clause and an empty negative one; at the leftmost match, the clauses are the stripped text before the trigger and the stripped text after it |
| QueryParser.ParseWith | search.py:106-122 | with no match, the positive clause is the query untouched and the negative clause is empty; with a leftmost match, the clauses are the stripped text before the match and the stripped text after it |
| QueryParser.SearchIgnoresCase | search.py:101-106 | two queries that differ only in ASCII letter case get the same match position and alternative (`re.IGNORECASE`) |
| QueryParser.ParseIgnoresCase | search.py:101-122 | two queries that differ only in letter case give clauses that differ only in letter case |
| QueryParser.ParseAround | search.py:106-122 | text `x`, then an alternative, then `y`, with no match before the alternative and no earlier alternative at its position, parses to `(strip(x), strip(y))` |
| QueryParser.ButNotNeedsLeadingSpace | search.py:101-102 | " but not" matches only where the query holds a space, so a query that opens with "but not" is not split there |
| QueryParser.ExcludingNeedsTrailingSpace | search.py:101-102 | "excluding " matches only when a space follows the word, so a query that ends in "excluding" is not split there |
| QueryParser.LeadingWithout | search.py:106-122 | a query that opens with "without" has an empty positive clause, and the stripped rest is the negative clause |
| QueryParser.ExceptInsideWord | search.py:92-106 | "except" needs no surrounding spaces, so it splits a word such as "exceptional" when nothing matches earlier |
| QueryParser.LeftmostTriggerWins | search.py:106-122 | in "x but not including y", "not including" matches too, yet the leftmost match " but not" wins and "including" stays in the negative clause |
| Text.Strip | search.py:119-122 | `str.strip()` returns the input with only whitespace cut from either end, has no whitespace at either end itself, and is empty exactly when the input is all whitespace |
| Text.StripPadded | search.py:119-122 | stripping whitespace around an already stripped text gives that text back |
| Text.LowerStr | design/index.py:73 | `str.lower()` keeps the length and lower-cases every character in place |
| Text.IndexOf | indexer.py:60-67 | `index` returns an occurrence with none before it; there is no result exactly when the pattern occurs nowhere, which is when `in` is false |
| Text.ReplaceChar | indexer.py:73 | `replace('/', sep)` changes every `/` to the separator and leaves every other character in place |
| Text.Join | indexer.py:77 | `os.path.join` returns an absolute second part alone, concatenates when the first part is empty or ends in the separator, and otherwise puts one separator between the two parts |
| Ranking.Combine | search.py:158-175 | final scores are the positive similarities when there is no negative clause, and otherwise the positive minus the negative times `penalty_weight` 1.0, row by row |
| Ranking.PenaltyOutweighs | search.py:169-171 | a row gets a negative final score exactly when it resembles the negative clause more than the positive one |
| Ranking.PenaltySeparatesTies | search.py:169-175 | of two rows the positive clause rates alike, the one less like the negative clause scores strictly higher; with no negative clause they stay tied |
| Ranking.ReversedArgsort | search.py:180-181 | `argsort(s)[::-1]` lists every row exactly once, from the highest score down |
| Ranking.ArgsortUpTo | search.py:181 | an insertion sort yields, for any scores, a permutation along which scores never decrease |
| Ranking.ArgsortExists | search.py:181 | every score sequence has an argsort, so the argsort parameter can always be supplied |
| Similarity.FinalScores | search.py:143-175 | scoring succeeds exactly when the positive clause is scored and, for a non-empty negative clause, the negative clause is scored too; the result has one score per embedding row |
| Similarity.FinalScoresValues | search.py:156-175 | the negative clause is scored only when it is non-empty; each final score is the positive similarity, or the positive minus the weighted negative similarity |
| Similarity.PlainQueryScoresWhole | search.py:106-175 | a query with no trigger phrase is scored as the whole query, with no penalty |
| Catalog.Ranked | search.py:197-201 | a list of rows becomes one result per row in that order, the `k`-th carrying that row's record and score and rank `k + 1` |
| ThresholdSearch.Reconcile | search.py:55-68 | with more records than embedding rows, only records with a description stay; otherwise the catalog is kept; a remaining count mismatch is reported but does not stop the load |
| ThresholdSearch.ReconcileDropsOnlyUndescribed | search.py:59-65 | reconciliation keeps records in order, and keeps a record exactly when there were not more records than rows or the record has a description |
| ThresholdSearch.SelectThreshold | search.py:183-206 | the loop returns the first six rows of the walk that score below 0.5 and have a catalog record, ranked 1, 2, ... in the order met |
| ThresholdSearch.TakeStopped | search.py:186-189 | stopping the walk once six results are held loses nothing: the first six qualifying rows of the prefix are those of the whole walk |
| ThresholdSearch.QualifyingNonIncreasing | search.py:180-206 | along a walk from the highest score down, the rows that qualify keep non-increasing scores |
| ThresholdSearch.QualifyingComplete | search.py:186-202 | a walk over every row meets every qualifying row |
| ThresholdSearch.SelectionTakesBest | search.py:180-206 | returned scores never increase; if a qualifying row is left out, six results came back and each scores at least as high as that row |
| ThresholdSearch.PerformSearch | search.py:135-210 | the search returns nothing when scoring raises; otherwise it returns the selection over the reversed argsort: at most six results, all below 0.5, scores non-increasing, ranked from 1 |
| FixedKSearch.LoadStrict | design/search.py:53-59 | the load stops exactly when the record count and the embedding row count differ, and otherwise keeps the catalog as read |
| FixedKSearch.TopK | design/search.py:159 | `argsort(...)[-top_k:][::-1]` keeps no more rows than there are, and its `k`-th entry is the `k`-th from the end of the argsort, so the highest score comes first |
| FixedKSearch.TopKSize | design/search.py:157-159 | `[-top_k:]` keeps `min(top_k, N)` rows for a positive `top_k`, every row for 0 (as `-0 == 0`), and all but the lowest `-top_k` for a negative one |
| FixedKSearch.TopKBest | design/search.py:157-159 | the kept rows are distinct valid rows, highest score first, and no row left out scores above a kept one |
| FixedKSearch.FixedResults | design/search.py:161-179 | the results are empty or one per kept row; they are empty when a kept row has no catalog record, and when every kept row has one they are exactly those rows ranked from 1; the `k`-th is that row's record and score ranked `k + 1`, and scores never increase |
| FixedKSearch.FormatTop | design/search.py:161-179 | every kept row becomes a result ranked from 1 in order; a row with no catalog record raises `IndexError` and the search returns nothing |
| FixedKSearch.TopResults | design/search.py:157-179 | keeping the top rows and formatting them gives the fixed-K results, ranked from 1 |
| FixedKSearch.PerformSearch | design/search.py:119-179 | the search returns nothing when scoring raises, and otherwise returns the formatted top rows of the argsort, ranked from 1 |
| FixedKSearch.AlignedNeverEmpties | design/search.py:157-175 | when the catalog lines up with the score rows, the `IndexError` path is never taken and exactly `min(top_k, N)` rows come back (all of them for 0) |
| FixedKSearch.DefaultKeepsTwelve | design/search.py:119 | with the default `top_k=12` and an aligned catalog, twelve rows come back, or every row when there are fewer |
| FixedKSearch.CliFilter | design/search.py:229 | the command-line filter keeps at most six results, each scoring below 0.5 |
| FixedKSearch.CliTurn | design/search.py:214-229 | "q" in either case quits, a blank query asks again, and any other query runs the search with `top_k = len(data)` and shows the filtered results |
| FixedKSearch.FilterRanked | design/search.py:226-229 | filtering ranked results by score picks the same records and scores as ranking the rows that pass the test |
| FixedKSearch.CliKeepsRecords | design/search.py:229 | the filter returns results of the unfiltered list, unchanged and in their order, picked at increasing positions; each scores below 0.5, and when fewer than six are kept every result below 0.5 is kept |
| FixedKSearch.CliRanksGap | design/search.py:229-238 | the filter does not renumber: on a list ranked 1, 2, ..., the result taken from position `p` keeps rank `p + 1`, so ranks increase strictly and the `k`-th shown has rank at least `k + 1` |
| FixedKSearch.CliOverOrder | design/search.py:226-229 | for any walk over every row, the command-line filter and the threshold selection return the same records with the same scores, in the same order |
| FixedKSearch.CliMatchesThreshold | design/search.py:226-229 | with an aligned catalog, the design-mode command line shows the same records and scores as the web back end's search, with ranks at least as large |
| DesignIndex.ImagePath | design/index.py:73 | with `/` or `\` as separator and parts that neither start nor end with it, the path is the script directory, `static`, the lower-cased style, `images` and the file name, with one separator between each two |
| DesignIndex.ImageUrl | design/index.py:76 | the URL is 16 characters longer than the style and file name together, the length of `/static/`, `/images/` |
| DesignIndex.ImageUrlParts | design/index.py:76 | the URL reads `/static/`, then the lower-cased style, then `/images/`, then the file name |
| DesignIndex.Relocate | design/index.py:83-85 | a kept row has its `File Path` and `file_url` set to its image and every other field unchanged |
| DesignIndex.CleanOne | design/index.py:62-89 | one row is kept exactly when it has a style, a file name and a description and its image exists, and a kept row comes back relocated |
| DesignIndex.Clean | design/index.py:61-89 | the cleaning loop returns the kept rows, relocated, in order, with one non-empty description per kept row taken from that row |
| DesignIndex.CleanedKeepsExactlyValid | design/index.py:61-89 | cleaning keeps rows in order, and keeps a row exactly when it has a style, a file name and a description and its image exists under `static/<style>/images/` |
| DesignIndex.UrlNamesCheckedImage | design/index.py:71-79 | with `/` as separator, the URL given to the browser is the checked image path taken relative to the script directory |
| Indexer.NewPath | indexer.py:58-77 | a record is skipped exactly when its path is missing, empty or does not contain "bathroom" |
| Indexer.RebasedShape | indexer.py:60-77 | a rebased path is the script directory joined to the stored path from its first "bathroom" on, with every `/` turned into the separator |
| Indexer.Rebase | indexer.py:79-80 | the pass changes a record's `File Path` only, and only when the record is not skipped |
| Indexer.RebaseAll | indexer.py:54-87 | the loop visits every record once, rebases each, and counts it as either fixed or skipped |
| Indexer.FixableAllOrNone | indexer.py:54-82 | the fixed count equals the number of records exactly when no record is skipped, and is zero exactly when every record is skipped |
| Indexer.RebaseIdempotent | indexer.py:57-81 | running the pass again leaves a rebased path unchanged, unless the script directory itself makes "bathroom" occur earlier |
| Indexer.Descriptions | indexer.py:101-104 | one description per record in record order, and `""` for a missing one |
| Indexer.IndexerOutputLoads | indexer.py:101-104 | the indexer writes one embedding row per record, so the lenient load drops nothing and finds the counts equal, and the strict load does not stop |
| Api.AppUrl | app.py:47-56 | a URL is built exactly when both the file name and the lower-cased style are non-empty, and it is `/static/`, the lower-cased style, `/` and the file name |
| Api.FormatAll | app.py:45-66 | one entry per result, in the order of the results, each the reshaping of that result |
| Api.Format | app.py:47-64 | each entry carries the result's rank, score, title and style unchanged, and the URL built from its style and file name |
| Api.SearchEndpoint | app.py:31-66 | a body that is not a JSON object gives 400 "Invalid JSON payload"; a blank query gives 400 "Empty query"; otherwise every threshold-search result is reshaped in order: at most six entries ranked from 1, all below 0.5, scores non-increasing |
| Api.AppUrlOmitsImages | app.py:51-54 | the web back end's URL leaves out the `images` folder that the design-mode builder puts in, so for a non-empty file name the two URLs differ |

## Left out

- Sentence encoding, cosine similarity and numpy arithmetic are left out. They are replaced by the `Scorer` parameter, and scores are exact reals rather than floats.
- The order `np.argsort` gives to tied scores is not modelled. The argsort is a parameter constrained only by permutation and order.
- Console output (every `print`), file reading and writing, JSON and Excel parsing, and the model's own loading are I/O and are left out.
- `sys.exit` is the `Fatal` variant of the strict load. Nothing after it is modelled.
- Letter case and whitespace are ASCII only. Python's `lower`, `strip`, `isspace` and `re.IGNORECASE` also act on non-ASCII characters.
- A record field is `None` when its key is missing, holds JSON `null`, or holds a pandas NaN. The source tells these apart in a few places:
  - `search.py:64` keeps a NaN description, which the model treats as missing;
  - `app.py:48` raises (status 500) when `Style` is `null` or NaN, where the model returns an entry with no URL;
  - at `indexer.py:60` a NaN `File Path` is truthy, so `'bathroom' not in old_path` raises outside the `try` and the script stops before writing the JSON, where the model skips and counts the record;
  - at `app.py:49-54` a NaN `File Name` is truthy, so the source builds `/static/<style>/nan` where the model gives no URL;
  - at `indexer.py:101-104` a NaN description is passed on as NaN, where the model gives `""`.
- A JSON `null` or non-string query raises at `app.py:40` (status 500) and is not modelled: the query is a string or missing.
- Non-string spreadsheet cells are not modelled. For example, a numeric style whose `lower()` raises is caught and skipped at `design/index.py:91-92`. Styles and file names are strings.
- `os.path.join` is modelled by its POSIX rules with a separator parameter. Windows drive letters are not modelled.
- The duplicate parser at `design/search.py:74-116` has the same statements as `search.py:84-132`, differing only in comments, and is modelled once.
- `show_image_in_viewer`, the `input()` loop, the result printing of the command line, and the chat endpoint are outside this model.
- The removed-count message at `design/index.py:94` and the encoding steps after the descriptions are gathered are left out.
- QueryParser.AlternativesOfPattern: `re.escape` is left out of the pattern text. Here it only puts a backslash before the spaces inside triggers, and an escaped space matches a space literally, so the eight alternatives are unchanged.
