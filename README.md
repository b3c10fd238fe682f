# A verified model of the boblox-semantle game core

The game is a semantic word-guessing game. A secret word is chosen and
every word of an embedding vocabulary is ranked by its similarity to the
secret. Each guess is answered with the guessed word's rank, a
"temperature" computed from that rank, and a symbol for the temperature.
Hints reveal words from fixed rank bands.

The repository has two implementations of this core, and both are modelled:

- `engine.py`: a multi-table engine. It has the class-level `GameEngine`
  (vocabulary and secret-word catalog), one `GameTable` per game, and a
  `GameManager` registry of tables.
- `Jeu_complet.py`: the single-game functions behind the web front end.

Modules, one per file:

| file | module | models |
|---|---|---|
| `wrappers.dfy` | `Wrappers` | `Option`, `Result`, and the Python exceptions the code can raise (`KeyError`, `IndexError`, `TypeError`, `ZeroDivisionError`) as values |
| `text.dfy` | `Text` | `str.strip()` with Python's whitespace set, `str.lower()`, the slice `line[1:-1]`, integer formatting |
| `secrets.dfy` | `Secrets` | the secret-word file grammar of both loaders as one fold `Load` over classified lines, and a reference description of its result |
| `ranking.dfy` | `Ranking` | the stop-word penalty, the stable descending sort, the rank dictionary, Python slicing |
| `engine.dfy` | `Engine` | `adjust_score`, `temperature`, `temp_emoji`, the `GameEngine`, `GameTable` and `GameManager` classes |
| `jeu_complet.dfy` | `JeuComplet` | `adjust_score`, `load_secret_words`, `build_ranking`, `temperature`, `get_temperature_emoji`, `get_hint` |
| `variants.dfy` | `Variants` | where the two implementations agree and where they differ |

How the model represents the program:

- Similarity scores are `real`. The vector similarity itself is a parameter
  `sim(secret, word)`.
- The embedding dictionary is a `Vocabulary`: its keys, distinct, in the
  dictionary's iteration order.
- `random.choice` becomes an index supplied by the caller. `GameTable.hint`
  is the exception: there the model picks nondeterministically and
  constrains the result only by its postcondition.
- Python's `list.sort(key=score, reverse=True)` is stable. It is modelled
  as an insertion sort `SortDesc`, which is proved to be a permutation,
  sorted and stable. The model also proves that there is only one stable
  descending sort, so `SortDesc` is the result of Python's sort and not
  just one possible order.
- An exception becomes a result value. Methods return an `Outcome`
  (`Done` or `Raised(e)`) or a dedicated outcome datatype. Where the
  exception leaves a state behind (an unchanged catalog, an unchanged
  ranking, a secret set before the ranking failed), the method's contract
  states that state.
- `GameEngine`, `GameTable` and `GameManager` are classes whose methods
  change their fields. A `GameTable`'s fields are summed up by
  `Snapshot()`, a `Table` value. `Guess` is specified by the pure function
  `Play` on that value, and the game properties are lemmas about `Play`.

Behaviours of the code that are easy to miss:

- In `engine.py` any stripped line that starts with `[` is a header, and a
  word line before the first header raises KeyError (engine.py:87-91).
  That is the only line that can raise, so a load that raises leaves the
  catalog as it was.
- `GameManager.create` installs a fresh table under the id and drops any
  table registered there before (engine.py:176).
- A game ends when the lower-cased guess equals the secret (engine.py:142).
- The secret is not guaranteed to be at rank 1. A stop word as secret has
  its own score multiplied by 0.8, and ties keep vocabulary order. No
  such property is claimed.
- There is no attempt counter or guess log in either implementation, so
  the model has none.
- The stop-word penalty multiplies by 0.8, so it raises negative scores
  (`Ranking.PenaltyDirection`).

## Model

| member | source | states |
|---|---|---|
| Text.Strip | Jeu_complet.py:36 | the result is a factor of the line, everything cut off on both sides is Python whitespace, and the result neither starts nor ends with whitespace |
| Text.StripIdempotent | engine.py:84 | stripping a stripped line changes nothing |
| Text.Lower | Jeu_complet.py:46 | the lower-cased line has the same length and each character is the lower-case form of the original one |
| Text.LowerIdempotent | engine.py:135 | lower-casing a lower-cased word changes nothing, so the lower-cased catalog words are fixed points of the guess normalisation |
| Text.Inner | engine.py:88 | `line[1:-1]` drops the first and last character, and is empty for lines shorter than 2 |
| Secrets.Classify | engine.py:84-90 | what one stripped line is: blank or comment, header (`[` at the start, and for `load_secret_words` also `]` at the end) named by `line[1:-1]`, or a lower-cased word; its meaning is stated through `Load` by the lemmas below |
| Secrets.Step | Jeu_complet.py:38-46 | the effect of one classified line on the loader's variables, including the KeyError of engine.py:91 and the `elif current_theme` of Jeu_complet.py:45; stated by `StepThemes`, `LoadCurrent` and `LoadFailsIff` |
| Secrets.Load | engine.py:83-91 | the loop over all lines of the file, for either loader; stated by `LoadThemes`, `LoadFailsIff`, `FailureKeepsInit` and `LoadFailureFinal` |
| Secrets.FailureKeepsInit | engine.py:87-91 | a load that raises leaves the catalog exactly as it was and no theme open |
| Secrets.LoadFailureFinal | engine.py:91 | once the loader has raised, the remaining lines have no effect on the final state |
| Secrets.LoadCurrent | engine.py:87-89 | while no exception happened, the current theme is the name of the last header read and is a key of the catalog |
| Secrets.LoadOpen | Jeu_complet.py:42-46 | while no exception happened, an open theme is a key of the catalog, so `themes[current_theme].append` finds its list |
| Secrets.LoadFailsIff | engine.py:87-91 | loading fails exactly when the engine dialect meets a word line that no header precedes; `load_secret_words` never fails |
| Secrets.LoadKeys | engine.py:87-89 | the catalog's keys after loading are the initial keys plus the name of every header |
| Secrets.LoadUntouched | engine.py:80-91 | a theme no header names keeps the words the class-level catalog already had |
| Secrets.SectionStep | Jeu_complet.py:45-46 | a line that is not the theme's header extends the theme's words exactly as it extends the section after the theme's last header |
| Secrets.LoadSection | Jeu_complet.py:41-46 | a theme holds the lower-cased words after its last header up to the next header, in order, so a repeated header discards earlier words; under `load_secret_words` the empty theme name keeps no words |
| Secrets.LoadThemes | engine.py:80-91 | the whole loaded catalog: its keys, each headed theme's words, and the untouched themes |
| Ranking.Penalized | engine.py:25 | a stop word's score is multiplied by 0.8 and every other score is kept |
| Ranking.PenaltyDirection | Jeu_complet.py:21-24 | the penalty lowers exactly the positive scores of stop words and raises exactly their negative scores |
| Ranking.Scores | engine.py:121-125 | one entry per vocabulary word, in vocabulary order, scored by the adjusted similarity to the secret; each implementation passes its own `adjust_score` |
| Ranking.Insert | engine.py:126 | one insertion step of the stable sort: an entry goes in front of the first entry whose score is not above its own; stated by `InsertPermutes`, `InsertSorted` and `InsertClass` |
| Ranking.SortDesc | Jeu_complet.py:112 | `sort(key=score, reverse=True)`; stated by `SortCorrect`, `SortDescIsTheStableSort`, `SortWords` and `SortDistinct` |
| Ranking.SortPermutes | engine.py:126 | sorting returns a permutation of the scored entries |
| Ranking.SortSorted | engine.py:126 | sorting orders the entries by non-increasing score |
| Ranking.SortStable | engine.py:126 | entries with equal scores keep their input order |
| Ranking.SortCorrect | Jeu_complet.py:112 | the sort is a stable descending sort of its input and keeps its length |
| Ranking.StableSortUnique | engine.py:126 | two orders that are sorted by descending score and agree on the order inside every score class are equal |
| Ranking.SortDescIsTheStableSort | Jeu_complet.py:112 | every stable descending sort of the entries is `SortDesc` of them, so the model's sort is the one Python performs |
| Ranking.SortWords | engine.py:123-126 | sorting keeps exactly the same set of words |
| Ranking.SortDistinct | Jeu_complet.py:107-112 | the ranking of a vocabulary keeps its words pairwise distinct |
| Ranking.Band | engine.py:165 | `s[low:high]` with Python's clamping: empty when `low` is past the end or `high <= low`, otherwise `min(high, len) - low` entries starting at position `low` |
| Ranking.RankDict | Jeu_complet.py:115-116 | `{word: i + 1 for i, (word, _) in enumerate(ranking)}`, where a later entry overwrites an earlier one; stated by `RankDictSound`, `RankDictKeys`, `RankDictBijection`, `RankDictIff` and `RankDictSize` |
| Ranking.RankDictSound | Jeu_complet.py:115-116 | every word of the ranking is a key, and every key maps to a 1-based position that holds that word, so `ranking[ranks[w] - 1]` is `w`'s own entry |
| Ranking.RankDictKeys | engine.py:128 | the keys are exactly the words of the ranking |
| Ranking.RankDictBijection | engine.py:128 | with distinct words, the word at position `i` has rank `i + 1` |
| Ranking.RankDictIff | Jeu_complet.py:116 | with distinct words, `ranks[w] == i + 1` holds exactly when position `i` holds `w` |
| Ranking.RankDictSize | engine.py:140 | with distinct words the dictionary has one key per entry, so `len(rank_map)` is the vocabulary size |
| Engine.AdjustScore | engine.py:24-25 | the stop-word penalty applies when the word itself (case-sensitively) is a stop word |
| Engine.Temperature | engine.py:34-44 | the unrounded piecewise formula; stated by `TemperatureAtRankOne`, `TemperatureMonotone`, `TemperatureIgnoresTotal` and `TemperatureBounds` |
| Engine.TempEmoji | engine.py:47-54 | the seven-symbol classifier; stated by `TempEmojiMonotone` and `TempEmojiExtremes` |
| Engine.TemperatureAtRankOne | engine.py:35-36 | rank 1 gives exactly 100 |
| Engine.TemperatureMonotone | engine.py:34-44 | a worse rank never gives a higher temperature |
| Engine.TemperatureIgnoresTotal | engine.py:43-44 | the vocabulary size plays no part, because the last band divides by the constant 27086 - 5000 |
| Engine.TemperatureBounds | engine.py:34-44 | temperatures never exceed 100, and ranks up to 27086 give at least -20 |
| Engine.TempEmojiMonotone | engine.py:47-54 | a higher temperature never gives a colder symbol |
| Engine.TempEmojiExtremes | engine.py:48-54 | the coldest symbol goes exactly to temperatures of 0 or below, and the warmest exactly to temperatures above 80 |
| Engine.GameEngine.constructor | engine.py:61 | the secret-word catalog starts empty |
| Engine.ReadSecretsLine | engine.py:84-91 | one line of the file changes the open theme and the catalog exactly as one `Step` of the engine's fold, and raises exactly when that step fails |
| Engine.GameEngine.LoadSecrets | engine.py:80-91 | the catalog becomes the fold `Load` of the file's lines from the old catalog, the method raises KeyError exactly when that fold fails, and then the catalog is the old one |
| Engine.Play | engine.py:131-152 | `guess` as a function from table state to answer and next state; stated by `PlayFinished`, `PlayUnknown`, `PlayGuessed`, `PlayKnown`, `PlayKeepsConsistent` and `PlayRepeat` |
| Engine.PlayGuessed | engine.py:139-152 | a word in the rank map is answered with its rank, the temperature and symbol of that rank computed from the map's size, and `found` by equality with the secret, which alone sets `finished` |
| Engine.PlayFinished | engine.py:132-133 | a finished game answers `game_finished` and changes nothing |
| Engine.PlayUnknown | engine.py:135-137 | a guess whose lower-cased form is not in the rank map answers `unknown_word` and changes nothing |
| Engine.PlayKnown | engine.py:139-152 | a known guess answers with the lower-cased word, its rank (between 1 and N, at the position holding that word), the temperature and symbol of that rank, and `found` exactly when the word is the secret; only `finished` changes, to `found` |
| Engine.PlayKeepsConsistent | engine.py:142-144 | a guess keeps the table's invariant, changes only `finished`, and sets it only when the secret is found |
| Engine.PlayRepeat | engine.py:131-152 | guessing the same word again gives the same answer and state, unless the first guess found the secret, after which the answer is `game_finished` |
| Engine.GameTable.constructor | engine.py:98-103 | a new table has its id, no secret, no ranking, no rank map, and is not finished |
| Engine.GameTable.BuildRanking | engine.py:120-128 | the ranking becomes the stable descending sort of the vocabulary's adjusted scores and the rank map its rank dictionary; a missing or unknown secret raises KeyError and leaves both unchanged |
| Engine.GameTable.SetSecret | engine.py:116-117 | the secret is set and the ranking rebuilt for it, or KeyError if the vocabulary lacks it |
| Engine.GameTable.PickFromGlove | engine.py:106-108 | the secret is the chosen vocabulary word and the ranking is built for it; an empty vocabulary raises IndexError and changes nothing |
| Engine.GameTable.PickFromSecrets | engine.py:110-113 | the secret is the chosen word of the chosen theme; an empty catalog or theme raises IndexError; a secret outside the vocabulary raises KeyError after the secret was set |
| Engine.GameTable.PickFromTheme | engine.py:115-117 | as above for a given theme; an unknown theme raises KeyError and changes nothing |
| Engine.GameTable.Guess | engine.py:131-152 | the answer and the new table are `Play` of the old table and the guess, and the table's invariant is kept |
| Engine.GameTable.Hint | engine.py:154-166 | level 99 returns the secret (or None); an unlisted level raises KeyError; no ranking raises TypeError; an empty slice raises IndexError; otherwise the word has a rank in `low+1 .. high` and sits at that position of the ranking |
| Engine.GameManager.constructor | engine.py:172-173 | the registry starts empty |
| Engine.GameManager.Create | engine.py:175-176 | a fresh, unfinished table without a secret is registered under the id, replacing any earlier one, and the other entries are kept |
| Engine.GameManager.Cancel | engine.py:178-179 | the id is removed if present and nothing else changes |
| Engine.GameManager.Get | engine.py:181-182 | returns the table registered under the id, or null when there is none, and a returned table satisfies the table invariant, so every table method can be called on it; nothing changes |
| JeuComplet.AdjustScore | Jeu_complet.py:21-24 | the penalty applies exactly when the lower-cased word is a stop word |
| JeuComplet.ReadSecretLine | Jeu_complet.py:36-46 | one line of the file changes `current_theme` and `themes` exactly as one `Step` of the `load_secret_words` fold, and never fails while the open theme is a key |
| JeuComplet.LoadSecretWords | Jeu_complet.py:29-46 | the themes are the `load_secret_words` fold `Load` of the file's lines; the KeyError branch of the fold cannot occur |
| JeuComplet.BuildRanking | Jeu_complet.py:103-113 | a stable descending sort of the scored vocabulary, with as many entries as words and distinct words; KeyError for a secret outside the vocabulary |
| JeuComplet.Temperature | Jeu_complet.py:121-131 | the value is undefined (ZeroDivisionError) exactly for ranks above 5000 when the vocabulary has exactly 5000 words |
| JeuComplet.TemperatureAtRankOne | Jeu_complet.py:122-123 | rank 1 gives exactly 100 |
| JeuComplet.TemperatureMonotone | Jeu_complet.py:121-131 | for ranks within the vocabulary the temperature is defined and a worse rank never gives a higher temperature |
| JeuComplet.TemperatureBounds | Jeu_complet.py:121-131 | ranks from 1 to the vocabulary size give temperatures between -20 and 100 |
| JeuComplet.GetTemperatureEmoji | Jeu_complet.py:133-143 | the five-symbol classifier; stated by `EmojiMonotone` and `EmojiExtremes` |
| JeuComplet.EmojiMonotone | Jeu_complet.py:133-143 | a higher temperature never gives a colder symbol |
| JeuComplet.EmojiExtremes | Jeu_complet.py:134-143 | the coldest symbol goes exactly to temperatures of 0 or below, and the warmest exactly to temperatures above 80 |
| JeuComplet.Level | Jeu_complet.py:149-168 | the `if level == ... elif` chain: wording, slice bounds and length threshold of levels 1 to 4; stated by `LevelShape` |
| JeuComplet.GetHint | Jeu_complet.py:148-169 | `get_hint` with the drawn index as a parameter; stated by `GetHintNone`, `GetHintPicks`, `GetHintBand` and `ClosestHintSkipsTopTwo` |
| JeuComplet.LevelShape | Jeu_complet.py:149-168 | only levels 1 to 4 give hints, each slice is non-empty, and each length threshold is at least the slice's upper bound, so the slice is never clamped |
| JeuComplet.GetHintNone | Jeu_complet.py:148-169 | the result is None exactly for a level outside 1..4 or a ranking no longer than the level's threshold |
| JeuComplet.GetHintPicks | Jeu_complet.py:150-153 | a hint names the entry at position `low + pick` of the ranking, with the rank the dictionary gives it, or raises KeyError when the dictionary lacks it |
| JeuComplet.GetHintRanked | Jeu_complet.py:150-153 | with any dictionary that gives the word at position `i = low + pick` the rank `i + 1`, the hint is that word with rank `i + 1` and the level's wording |
| JeuComplet.GetHintBand | Jeu_complet.py:150-168 | with the ranking's own rank dictionary, the hint drawn at `pick` is the word at position `i = low + pick` and reports rank `i + 1`, which lies in the level's band |
| JeuComplet.ClosestLevel | Jeu_complet.py:164-166 | level 4 draws from `ranking[2:20]`, 18 entries, and needs more than 20 entries |
| JeuComplet.ClosestHintRank | Jeu_complet.py:164-168 | at level 4 the hint drawn at `pick` reports the rank `pick + 3` that the dictionary gives the word at position `pick + 2` |
| JeuComplet.ClosestHintSkipsTopTwo | Jeu_complet.py:164-168 | the closest level reports a rank between 3 and 20, never 1 or 2 |
| Variants.AdjustAgreesOnLowerCase | Jeu_complet.py:21-24 | both `adjust_score` functions agree on lower-case words |
| Variants.AdjustDiffersOnCapitalised | engine.py:24-25 | "The" is penalised by `Jeu_complet.py` and not by `engine.py` |
| Variants.TemperaturesAgree | Jeu_complet.py:130-131 | both temperature functions agree on ranks up to 5000, and everywhere when the vocabulary has 27086 words |
| Variants.UnclosedHeader | Jeu_complet.py:41 | `[Animaux` opens a theme `Animau` in the engine and is a word for `load_secret_words` |

## Left out

- `similarity` and `vector_similarity` (numpy dot products and norms) are floating-point computations. The model takes the similarity as the parameter `sim`.
- `load_glove` in both files is file and gzip reading, float parsing and normalisation. The embedding store is the `Vocabulary` parameter, with its keys in iteration order.
- Engine.TemperatureMonotone and the other temperature members state the exact real formula, without `round(x, 2)` (engine.py:36-44, engine.py:149, Jeu_complet.py:123-131).
- Engine.Play and JeuComplet.GetTemperatureEmoji take the symbol from the unrounded temperature, while the source rounds first. At a band edge the symbol can differ: at rank 3666 the formula gives 0.005, but in doubles it is 0.004999999999999005, which rounds to 0.0, so the source answers the coldest symbol (engine.py:42 and :54, Jeu_complet.py:129 and :143) where the model answers the snowflake.
- `random.choice` is not modelled as randomness. The pick is a caller-supplied index, or a nondeterministic choice in `Engine.GameTable.Hint`.
- Engine.GameTable.Hint: the contract says which band the word comes from, not which word of the band is drawn.
- Text.Lower: only ASCII and Latin-1 capitals are lowered, not the rest of Unicode; `Text.Strip` uses Python's full whitespace set.
- `JeuComplet.HintText` formats the hint message; `Text.IntToString` formats the rank. Neither has a contract about the printed form.
- Reading files, the file-not-found branch of `load_secret_words` (Jeu_complet.py:54-56) and every `print` are I/O. The loaders take the file's lines as a sequence.
- The FastAPI endpoints in main.py and cemantix-api-main are not part of this model.
- The class-level embedding dictionary of `GameEngine` is passed to the methods that read it instead of being a field.
- Engine.GameTable.PickFromSecrets and Engine.GameTable.PickFromTheme take the secret-word catalog as a parameter instead of reading `GameEngine.secret_words`; nothing ties that parameter to the catalog `GameEngine.LoadSecrets` built.
- The code has no threads and no locks, so there is no concurrency to model.
