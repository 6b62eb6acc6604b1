# Word list filter — a Dafny model

`WordListFilter.py` cleans a per-language list of candidate words for human
review. For each language it:

- loads the candidate words and the catalogued target items, dropping each
  table's header row;
- normalises the target items;
- sorts every candidate word into one bucket: a stopword, an already
  catalogued target item, or an unmatched word;
- writes the unmatched words to a new table.

This project models that pass. The language is an explicit argument
(`Languages.Language`); the script keeps it in a global instead.

Three outside capabilities are abstract fields of `Languages.Env`:

- `isWordChar`: the complement of the `\W` class of Python's `re`;
- `stopwords`: NLTK's per-language stopword list;
- `tokenize`: NLTK's `word_tokenize`.

The model has one module per stage:

- `Text`: Python's `in`, `split`, `join`, `strip('\n')`, and
  `re.sub('\W+', ' ', …)` (`Collapse`).
- `Normalize`: the semicolon and apostrophe rules and `clean_target_items`.
- `Matcher`: the classification loop of `get_unmatched_words`.
- `Loaders`: the header-dropping loaders and the whole per-language pass.

`Lists` and `Wrappers` are generic helpers.

`clean_target_items`, `get_unmatched_words` and the two loaders are loops that
append to lists. They are methods whose loop invariants tie the list built so
far to a specification function of the input prefix (`CleanedList`, `Bucket`).
The properties are lemmas about those functions.

Notes on the behaviour modelled:

- The apostrophe rule is `item.split("'")[1]`. It keeps the text between the
  first and the second apostrophe, so "l'uomo d'affari" becomes "uomo d"
  (`ApostropheStopsAtSecond`). It does not keep everything after the first
  apostrophe. The model follows the code.
- A word-list line is the whole line with `strip('\n')` applied. It is not
  the first field of the line. The model follows the code.
- NLTK has no Korean or Japanese stopword list, so asking for one would raise.
  `Languages.IsStopword` therefore requires a language other than those two.
  Every call site meets that requirement, so the script never asks for one.
- The membership tests `is_stopword` (`Languages.IsStopword`, lines 150-158)
  and `is_target_item` (`Matcher.IsTargetItem`, lines 161-167) are exact,
  case-sensitive list membership. How they decide the buckets is stated by
  `Matcher.ClassifyWord`.

## Model

| member | source | states |
|---|---|---|
| `Text.Contains` | WordListFilter.py:74 | the substring test `"; " in item` (and `"'" in item` at line 86): true exactly when the pattern occurs at some index |
| `Text.Find` | WordListFilter.py:74-75 | the first index where the pattern occurs, or none when it occurs nowhere; `split` makes its first cut there, and the `in` test is whether it exists |
| `Text.Split` | WordListFilter.py:75 | `str.split(sep)` yields at least one piece, two or more exactly when `sep` occurs, and no piece contains `sep` |
| `Text.Join` | WordListFilter.py:63 | `' '.join(tokens)` starts with the first token (followed by the separator when there are more); with a non-empty separator it is `''` exactly when there is at most one token and it is empty, which is when line 65 drops an item |
| `Text.JoinSplit` | WordListFilter.py:75 | joining the pieces of `split(sep)` with `sep` gives back the original string |
| `Text.SplitJoin` | WordListFilter.py:63 | `' '.join(tokens)` is the tokens in order with one separator between each two: splitting it at the separator gives back the tokens whenever none of them contains it |
| `Text.Collapse` | WordListFilter.py:54 | `re.sub('\W+', ' ', s)`: empty exactly when `s` is empty, never longer, only non-word character left is the space, no two adjacent non-word characters |
| `Text.CollapseAppend` | WordListFilter.py:54 | cutting a string anywhere except inside a run of non-word characters (next to a word character, or at either end) cuts the `\W+` replacement at the same place; with `CollapseAllWord` and `CollapseAllNonWord` this fixes the result of every string, each run becoming one space where it stands |
| `Text.CollapseAllWord` | WordListFilter.py:54 | a string of word characters only is unchanged |
| `Text.CollapseAllNonWord` | WordListFilter.py:54 | a non-empty run of non-word characters becomes exactly one space |
| `Text.CollapseIdempotent` | WordListFilter.py:61 | replacing `\W+` runs twice gives the same string as once |
| `Text.CollapseKeepsWordChars` | WordListFilter.py:61 | the collapse keeps every word character of the item, in order, and adds only spaces |
| `Text.Strip` | WordListFilter.py:28 | `row.strip('\n')` yields a contiguous piece of the line, with only newlines around it and no newline at either end |
| `Normalize.GetStrBeforeSemicolon` | WordListFilter.py:70-78 | an item without "; " is unchanged; otherwise the result is the prefix before the first "; ", and it contains no "; " |
| `Normalize.GetStrAfterApostrophe` | WordListFilter.py:81-90 | for Italian or French and an item with an apostrophe, the text between the first apostrophe and the next one (or the end), free of apostrophes; any other language or item is unchanged |
| `Languages.IsStopword` | WordListFilter.py:150-158 | true exactly when some entry of the language's stopword list equals the word (exact, case-sensitive); only defined outside Korean and Japanese, which have no list |
| `Normalize.RemoveStopwords` | WordListFilter.py:62 | the comprehension equals filtering the tokens by "not a stopword": order and repeats of kept tokens are preserved, no stopword remains, every non-stopword token is kept |
| `Normalize.RemoveStopwordsInOrder` | WordListFilter.py:62 | the kept tokens are a subsequence of the tokens |
| `Normalize.CleanItem` | WordListFilter.py:52-66 | a kept item is never empty; for Korean and Japanese an item is dropped exactly when it is the empty string |
| `Normalize.CleanTargetItems` | WordListFilter.py:47-67 | the loops of `clean_target_items` produce exactly the specified cleaned list |
| `Normalize.CleanedListIndexed` | WordListFilter.py:51-67 | output j is the cleaned form of input position Kept[j]; the kept positions increase; a position is kept exactly when its item survives cleaning |
| `Normalize.KoreanJapaneseCleaning` | WordListFilter.py:52-56 | Korean/Japanese: item i is kept exactly when it is non-empty, and each output is the `\W+` collapse of its item, in input order, never more outputs than inputs |
| `Normalize.DefaultCleaning` | WordListFilter.py:58-66 | other languages: every output is non-empty, in input order, and is the space-join of its item's tokens, none of which is a stopword |
| `Normalize.SemicolonExample` | WordListFilter.py:74-77 | "cat; feline creature" becomes "cat" |
| `Normalize.ApostropheExample` | WordListFilter.py:86-89 | French "l'arbre" becomes "arbre"; English leaves it unchanged |
| `Normalize.ApostropheStopsAtSecond` | WordListFilter.py:86-87 | for Italian or French, with the first apostrophe at i and the next at k, the result is exactly the text strictly between them (so "l'uomo d'affari" becomes "uomo d") |
| `Matcher.IsTargetItem` | WordListFilter.py:161-167 | true exactly when some entry of the cleaned target-item list equals the word (exact, case-sensitive) |
| `Matcher.ClassifyWord` | WordListFilter.py:106-120 | Korean/Japanese words are never stopwords; otherwise a stopword always goes to the stopword bucket; a target-item match or an unmatched word is exactly a word that is (or is not) in the target list and passed the stopword test |
| `Matcher.GetUnmatchedWords` | WordListFilter.py:101-120 | the loop fills the three lists with exactly the words of each bucket, in input order |
| `Matcher.BucketSnoc` | WordListFilter.py:106-120 | one more word joins its own bucket and no other |
| `Matcher.Partition` | WordListFilter.py:106-120 | unmatched, stopword and target-item buckets together are a permutation of the word list: no word lost, none duplicated |
| `Matcher.BucketsInOrder` | WordListFilter.py:106-120 | each bucket is a subsequence of the word list |
| `Matcher.BucketMembership` | WordListFilter.py:106-120 | a word is in a bucket exactly when it is an input word classified into it |
| `Matcher.BucketRules` | WordListFilter.py:107-120 | no unmatched word is a target item, and outside Korean/Japanese none is a stopword; a stopword never lands among target items; the Korean/Japanese stopword bucket is empty |
| `Matcher.EnglishScenario` | WordListFilter.py:106-120 | with stopword list ["the"] and target "le chat", ["the", "le chat", "xyz123"] splits into ["xyz123"], ["the"], ["le chat"] |
| `Loaders.DropHeader` | WordListFilter.py:43 | the `[1:]` slice: n rows give max(n-1, 0) entries, namely rows 1..n-1 in order (also line 29) |
| `Loaders.GetWordList` | WordListFilter.py:21-29 | n lines give max(n-1, 0) words; word i is line i+1 with newlines stripped |
| `Loaders.FirstColumn` | WordListFilter.py:41-42 | one entry per row, the row's first field |
| `Loaders.GetTargetItemList` | WordListFilter.py:32-44 | fails exactly when some row has no first column, naming the first such row; otherwise yields the cleaned first columns of the rows after the header |
| `Loaders.OutputRows` | WordListFilter.py:17-18 | one output row per word, the word as its only field, in order |
| `Loaders.CreateNewListFile` | WordListFilter.py:7-18 | the pass fails exactly when a target-items row lacks a first column; otherwise it yields one row per unmatched word, in word-list order |

## Left out

- File reading and writing are not modelled: `open`, the per-language file names and the tab-separated format. The loaders receive the table's lines, or its rows already split into fields. `CreateNewListFile` returns the rows it would write.
- Parsing by `csv.reader` is not modelled: quoting and the tab delimiter. Neither is Python's newline translation on read.
- The report printed at lines 122-131 is presentation only. The buckets it prints are the outputs of `Matcher.GetUnmatchedWords`.
- `is_proper_noun` (lines 139-147) is dead code. It is called only from a commented-out branch and relies on NLTK's part-of-speech tagger.
- The top-level loop over the eight languages (lines 173-183) and the global `language` are not modelled. Every operation takes the language as an argument. A failure for one language ends the whole run, because that loop has no per-language error handling.
- The `\W` class, the stopword corpora and `word_tokenize` are outside code. They are abstract fields of `Languages.Env`, and nothing is assumed about them.
- Idempotence of the whole default-path normalisation is not stated. It depends on the abstract tokenizer. Only the `\W+` collapse step is proved idempotent (`Text.CollapseIdempotent`).
- Text.CollapseKeepsWordChars: requires that the space is not a word character. This holds for Python's `\W`, but the abstract `isWordChar` does not guarantee it.
