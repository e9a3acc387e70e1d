# Tiered user matcher and similarity ranker

A Dafny model of the in-process ranking logic of a small transaction API:

- `UserMatcher.match_users` takes a transaction id and scores every user
  against that transaction's description. The description is stripped and
  lower-cased. Each user is scored by the first of five tiers that accepts
  it: exact equality (1.0), equality with a whitespace token (0.95),
  substring (0.85 + 0.1 · len(name)/len(description)), best fuzzy token
  ratio (if at least 0.70), and fuzzy ratio against the whole description
  (if at least 0.70). Users no tier accepts are dropped. The rest are sorted
  stably by descending score and returned with their count.
- `SemanticSearcher.search_transactions`, after the embedding step, keeps
  the transactions whose normalised similarity is strictly above the
  threshold and sorts them stably by descending score. It also returns the
  number of whitespace tokens of the raw query.

Modules, one per component:

- `Text` (text.dfy): Python's `isspace`, `strip()`, ASCII `lower()`,
  `split()`, `" ".join` and the substring test `x in s`.
- `Ranking` (ranking.dfy): the stable descending sort both engines use
  (`sorted(..., key=lambda x: x[1], reverse=True)`).
- `Matcher` (matcher.dfy): the tiers, the running-maximum token loop, the
  `match_users` loop, and the lemmas about them.
- `Searcher` (searcher.dfy): the threshold filter, the ranking and the
  token count of `search_transactions`.

The two entry points are methods with the source's loops:
`Matcher.MatchUsers` (its per-user body is `Matcher.ScoreUser`, which holds
the inner token loop) and `Searcher.SearchTransactions`. Each is proved
equal to a specification function: `MatchTransaction` (built from
`Classify`, `ScoreAll` and `SortByScore`) and `Rank` (built from `Above` and
`SortByScore`). The lemmas then prove what the source promises about those
functions.

External collaborators become parameters:

- The users and transactions tables (CSV-backed caches in the source) are
  parameters. Users are a sequence of `(id, name)` pairs in dictionary
  iteration order.
- `rapidfuzz.fuzz.token_sort_ratio` is a function parameter `ratio`. Where
  a bound needs it, the lemma requires (`RatioInRange`) that it returns a value
  in [0, 100].
- The embedding model and the cosine similarity are replaced by the
  per-transaction normalised scores they produce.
- The threshold is a parameter. `Searcher.DefaultThreshold` is the
  configured default of 0.3.

Behaviour worth noting:

- The substring score is not capped. `TierScores` proves it stays below
  0.95.
- The fuzzy-token tier keeps the best `token_sort_ratio(name, token)/100`
  unchanged; it is not remapped into a narrower band.
- Ties keep user (or transaction) iteration order, because Python's sort is
  stable. They are not broken by id.
- An empty stripped description gives no matches, even for a user whose
  name is empty.
- A literal occurrence of a name does not always outrank a fuzzy match
  (`FuzzyCanOutscoreSubstring`).
- An empty query is not special-cased by the search; only its token count
  is 0.

## Model

| member | source | states |
|---|---|---|
| `Text.ToLower` | app/services.py:82 | the result has the input's length, no ASCII upper-case letter, whitespace exactly where the input has it, and each character is unchanged or its letter lowered |
| `Text.IsSpace` | app/services.py:82 | no contract: the characters Python's `str.isspace()` accepts, on which `strip()` (line 82) and `split()` (line 88) cut; `Strip`, `Split` and their lemmas state what each does with them |
| `Text.TextStart` | app/services.py:82 | the index of the first non-whitespace character: everything before it is whitespace |
| `Text.TextEnd` | app/services.py:82 | one past the last non-whitespace character: everything after it is whitespace |
| `Text.Strip` | app/services.py:82 | the stripped string is empty exactly when the input is all whitespace, and otherwise starts and ends with non-whitespace |
| `Text.StripIsTrimmedSlice` | app/services.py:92 | `strip()` returns a contiguous slice of its input with only whitespace removed before and after it |
| `Text.StripTrimmed` | app/services.py:92 | a string with no whitespace at either end is unchanged by `strip()` |
| `Text.Normalize` | app/services.py:82 | `strip().lower()` is no longer than its input, is empty exactly when the input is all whitespace, otherwise starts and ends with non-whitespace, and has no ASCII upper-case letter |
| `Text.NormalizeIdempotent` | app/services.py:92 | normalising an already normalised name changes nothing |
| `Text.WordEnd` | app/services.py:88 | the length of the leading run of non-whitespace characters |
| `Text.Split` | app/services.py:88 | every token of `split()` is non-empty and free of whitespace; `SplitSpaces` and `SplitWord` determine the tokens of every string |
| `Text.SplitJoin` | app/services.py:88 | splitting words joined by single spaces gives the words back (round trip with `Join`) |
| `Text.SplitSpaces` | app/services.py:88 | whitespace of any length before a string yields no token |
| `Text.SplitWord` | app/services.py:88 | a word followed by whitespace or by the end of the string is the next token; with `SplitSpaces` and `Split([]) == []` this fixes the tokens of every string as its maximal non-whitespace runs, in order |
| `Text.SplitEmptyIffBlank` | app/services.py:88 | `split()` returns no token exactly when the string is all whitespace |
| `Text.TokensAreSubstrings` | app/services.py:88 | every token of `split()` occurs as a substring of the string it was cut from |
| `Text.IsSubstring` | app/services.py:105 | no contract: Python's `name in description` on two strings, a contiguous occurrence; `SubstringLength`, `SubstringOfSuffix` and `TokensAreSubstrings` state its properties |
| `Text.SubstringLength` | app/services.py:105 | a substring is no longer than the string, and one of equal length is the string itself |
| `Text.SubstringOfSuffix` | app/services.py:105 | a substring of a suffix is a substring of the whole string |
| `Text.ToLowerIdempotent` | app/services.py:82 | lowering twice is lowering once; `NormalizeIdempotent` rests on it |
| `Ranking.Insert` | app/services.py:129-133 | the inserted sequence is the old one plus the new entry, as a multiset |
| `Ranking.SortByScore` | app/services.py:129-133 | the sorted list is a permutation of the input and non-increasing in score |
| `Ranking.InsertKeepsOrder` | app/services.py:129-133 | inserting into a non-increasing list keeps it non-increasing |
| `Ranking.SortKeepsMembers` | app/services.py:129-133 | sorting keeps exactly the input entries |
| `Ranking.SortIsStable` | app/services.py:129-133 | for every score, the entries with that score appear in the same order as in the input (Python's sort is stable, also with `reverse=True`) |
| `Ranking.InsertIsStable` | app/services.py:129-133 | insertion never moves an entry past one with the same score |
| `Ranking.SortedDeterminedByScoreClasses` | app/services.py:129-133 | two non-increasing lists with the same entries in the same order for every score are equal |
| `Ranking.SortByScoreIsTheStableSort` | app/services.py:129-133 | any non-increasing stable rearrangement of the input is exactly `SortByScore`, so the model's sort is the one Python's `sorted` computes |
| `Ranking.SortKeepsIdsDistinct` | app/services.py:129-133 | sorting the items of a dictionary keeps ids unique |
| `Ranking.InsertKeepsIdsDistinct` | app/services.py:129-133 | inserting an entry with a fresh id keeps ids unique |
| `Ranking.WithScoreMembers` | app/services.py:129-133 | the per-score subsequence holds exactly the input entries with that score |
| `Ranking.WithScoreConcat` | app/services.py:129-133 | the per-score subsequence of a concatenation is the concatenation of the per-score subsequences |
| `Ranking.HeadIsMaximal` | app/services.py:129-133 | the head of a non-increasing list has the highest score |
| `Ranking.HeadsAgree` | app/services.py:129-133 | two non-increasing lists with the same per-score subsequences start with the same entry |
| `Matcher.BestTokenScore` | app/services.py:112-116 | the running maximum from 0 is at least 0, at least every token's `ratio/100`, and is 0 or equal to one token's `ratio/100` |
| `Matcher.Classify` | app/services.py:94-126 | every accepted user scores at least `FuzzyThreshold` (70/100, line 65). The exact score of each tier is stated by `TierScores`, the five tier lemmas and `UserOutcome` |
| `Matcher.ScoreAll` | app/services.py:89-126 | the `matches` dictionary after the loop has no more entries than there are users, and every entry scores at least 0.70; `ScoreAllMembers` and `ScoreAllStep` state which entries it holds |
| `Matcher.ScoreUser` | app/services.py:92-126 | the tiers run in order, each success ending the user's turn as `continue` does; the inner token loop computes the running maximum; the outcome equals `Classify` of the name |
| `Matcher.MatchUsers` | app/services.py:68-140 | returns the sorted matches and their count: `[]` and 0 for an unknown id, an empty stripped description or no users, otherwise `SortByScore` of the entries of the users some tier accepts, in user order |
| `Matcher.MatchDescription` | app/services.py:84-140 | for a normalised description: non-increasing, no longer than the user table, every score at least 0.70; `MatchDescriptionProperties` states exactly which entries |
| `Matcher.MatchTransaction` | app/services.py:75-85 | an unknown transaction id gives `[]`; otherwise the result for its normalised description, non-increasing, no longer than the user table, every score at least 0.70 |
| `Matcher.ScoreAllStep` | app/services.py:89-126 | each loop iteration appends the current user's entry exactly when a tier accepts it |
| `Matcher.ScoreAllSingle` | app/services.py:89-126 | a single-user table yields that user's entry, or nothing |
| `Matcher.ExactTier` | app/services.py:94-97 | a name equal to the description scores exactly 1.0 in the exact tier |
| `Matcher.TokenTier` | app/services.py:99-102 | otherwise, a name equal to a whitespace token scores exactly 0.95 |
| `Matcher.SubstringTier` | app/services.py:104-109 | otherwise, a name occurring in the description scores `0.85 + 0.1·len(name)/len(desc)`, and the description is then non-empty |
| `Matcher.FuzzyTokenTier` | app/services.py:111-120 | otherwise, a best token score of at least 0.70 is the score, unchanged |
| `Matcher.FuzzyWholeTier` | app/services.py:122-126 | otherwise, `ratio(name, desc)/100` is the score when at least 0.70, and the user is dropped if not |
| `Matcher.EarlyExits` | app/services.py:78-85 | an unknown transaction id, an all-whitespace description or an empty user table give no matches |
| `Matcher.ScoreAllMembers` | app/services.py:89-126 | an entry is in `matches` exactly when some user has that id and a tier gives that user that score; users no tier accepts are absent |
| `Matcher.ScoreAllIdsDistinct` | app/services.py:89-126 | with distinct user ids, `matches` has at most one entry per id |
| `Matcher.MatchDescriptionProperties` | app/services.py:129-140 | the result is non-increasing in score, has one entry per id, contains exactly the accepted users' entries, and keeps ties in user order |
| `Matcher.UserOutcome` | app/services.py:89-140 | first tier wins: a user no tier accepts has no entry; an accepted user has exactly one, with its tier's score |
| `Matcher.TierScores` | app/services.py:94-126 | exact scores 1.0 and token 0.95; substring scores equal `0.85 + 0.1·len(name)/len(desc)` and lie in [0.85, 0.95) because the name is a strictly shorter substring; fuzzy-token equals the best token score; fuzzy-whole equals `ratio/100`; every score lies in [0.70, 1.0] |
| `Matcher.LengthRatioBelowOne` | app/services.py:107 | the length ratio of a strictly shorter name lies in [0, 1) |
| `Matcher.MatchScoresInRange` | app/services.py:94-126 | every returned score lies in [0.70, 1.0] |
| `Matcher.EmptyNameScoresSubstringFloor` | app/services.py:99-109 | a name that is empty after stripping is never a token; against any non-empty description it scores exactly 0.85 in the substring tier |
| `Matcher.OccurrenceIsNeverDropped` | app/services.py:94-109 | a name that occurs literally in the description (line 105's `in`, which includes equality and whole tokens) is always accepted, with a score of at least 0.85 |
| `Matcher.TokenMatchIsSubstringMatch` | app/services.py:99-109 | every token match is also a substring match, so the tier order decides between 0.95 and the substring score |
| `Matcher.ExampleExactMatch` | app/services.py:94-97 | description "ALICE" and user "alice" give `[("u1", 1.0)]` |
| `Matcher.ExampleTokenMatch` | app/services.py:99-102 | description "payment from BOB today" and user "bob" give `[("u1", 0.95)]` |
| `Matcher.FuzzyCanOutscoreSubstring` | app/services.py:104-120 | for a ratio in [0, 100] that gives the pair ("jonathan", "johnathan") 1600/17, "han" (a substring of "johnathan") lands in the substring tier with 0.85 + 0.1·3/9 and "jonathan" in the fuzzy-token tier with the larger 16/17: the tiers do not rank literal occurrences above fuzzy ones |
| `Matcher.NormalizeAlice` | app/services.py:82 | "ALICE" and "alice" both normalise to "alice" |
| `Matcher.NormalizePaymentFromBob` | app/services.py:82 | "payment from BOB today" normalises to "payment from bob today", and "bob" to itself |
| `Matcher.StripPaymentFromBob` | app/services.py:82 | "payment from BOB today" is unchanged by `strip()` |
| `Matcher.LowerPaymentFromBob` | app/services.py:82 | lower-casing "payment from BOB today" gives "payment from bob today" |
| `Matcher.NormalizeBob` | app/services.py:92 | "bob" normalises to itself |
| `Matcher.SplitPaymentFromBob` | app/services.py:88 | "bob" is a token of "payment from bob today" |
| `Matcher.SplitJohnathan` | app/services.py:88 | "johnathan" splits into that one token |
| `Matcher.HanIsSubstringTier` | app/services.py:104-109 | "han" against "johnathan" lands in the substring tier with 0.85 + 0.1·3/9 |
| `Matcher.JonathanIsFuzzyTokenTier` | app/services.py:111-120 | "jonathan" against "johnathan" lands in the fuzzy-token tier with the token's ratio/100 |
| `Searcher.CountTokens` | app/services.py:175 | the token count is 0 exactly when the raw query is all whitespace |
| `Searcher.CountTokensOfJoin` | app/services.py:175 | a query of n words separated by single spaces counts n tokens |
| `Searcher.ExampleTokenCount` | app/services.py:175 | "payment from contractor" counts 3 tokens |
| `Searcher.Above` | app/services.py:184-196 | an entry is kept exactly when it is in the input and its score is strictly above the threshold; the filter never lengthens the table |
| `Searcher.Rank` | app/services.py:195-208 | the search result is non-increasing, holds exactly the entries strictly above the threshold, and is no longer than the table; `RankProperties` adds stability and unique ids |
| `Searcher.SearchTransactions` | app/services.py:156-210 | the result is `Rank` of the scores; the token count is 0 without transactions and otherwise the raw query's token count, whatever the scores |
| `Searcher.RankProperties` | app/services.py:195-208 | the result is non-increasing, holds exactly the entries strictly above the threshold, keeps ties in table order, and has unique ids when the table does |
| `Searcher.AboveKeepsIdsDistinct` | app/services.py:184-196 | filtering keeps transaction ids unique |
| `Searcher.LowerThresholdKeepsResults` | app/services.py:195 | lowering the threshold never removes an entry from the result |
| `Searcher.ExampleDefaultThreshold` | app/services.py:195-208 | at the default threshold `DefaultThreshold` = 0.3 (app/config.py:25) a score of exactly 0.3 is dropped and the rest come out highest first |
| `Searcher.ExampleSort` | app/services.py:199-203 | two entries come out highest score first |
| `Searcher.ExampleAbove` | app/services.py:195 | the filter drops 0.3 and keeps 0.5 and 0.8 in input order |

## Left out

- `DataLoader` (CSV reading, file-existence checks, class-level caches) is not modelled: the tables are parameters.
- `SemanticSearcher.get_model`, `model.encode` and the numpy cosine similarity with its `1e-10` epsilon are foreign, floating-point code; each transaction's normalised similarity is an input.
- `round(score, 2)` is float rounding and is not modelled. The matcher sorts before rounding, as the model does. The search rounds before sorting and the model sorts on the unrounded score, so two scores that round equal, for example 0.851 and 0.849, may come out in a different order than in the source.
- Floating point in general: scores are exact reals, so `0.85 + ratio * 0.1` and `ratio / 100.0` carry no rounding error.
- `lower()` is modelled on the ASCII letters only; Unicode case mapping is not part of this model.
- `token_sort_ratio` itself comes from a library that is not part of this model; it is a parameter, and only its range [0, 100] is assumed.
- The unused constants `EXACT_MATCH_THRESHOLD` and `PARTIAL_MATCH_THRESHOLD` have no effect and are not modelled.
- Provider failures and HTTP error mapping (exceptions surfaced as HTTP 500 in app/endpoints.py) are outside the core; the FastAPI routing, app setup, settings loading, the launcher and the HTTP test script are not modelled.
- Python dictionaries are modelled as sequences of `(id, value)` pairs in iteration order; lemmas that need unique keys require it (`UserIdsDistinct`, `DistinctIds`).
