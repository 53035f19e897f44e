# Dataset cleaner: phrase filter, partition and removed-file path

This project models the core of `dataset_filters/openai_cleaner.py`, a script
that removes refusals and disclaimers from an instruction dataset. The model
has three parts:

- **The phrase matcher `contains_unwanted_words(text, unwanted_words)`.** It
  walks the phrase list and answers true at the first phrase whose lowercase
  form occurs in the lowercased text as a contiguous substring. If no phrase
  matches, it answers false. `Matcher.ContainsUnwantedWords` is the
  recursive function. `Matcher.CheckUnwanted` is the `for` loop with an early
  `return`, as the source writes it. Both are proved equal to "some phrase of
  the list, lowercased, occurs in the lowercased text".
- **The partition.** `new_dataset` and `removed_dataset` are the same dataset
  filtered on the `response` column, with the predicate negated and plain.
  `Partition.Select` models both filters. The lemmas prove that every record
  lands in exactly one output, that the sizes add up, that no record is made
  up or changed, that filtering again changes nothing and that the input order
  is kept. `Partition.SelectSplits` applies the filter to every split of a
  `DatasetDict`, as `DatasetDict.filter` does.
- **The removed-file path.** When `--removed_file` is missing, the path is
  `out_file.split(".")[0] + "_removed.json"`. `Text.Split` models
  `str.split`, and its first piece is proved to be the part before the first
  `.`. `OutputPaths.ResolveRemovedFile` picks between the argument and this
  default.

Modules:
- `text.dfy` (`Text`): ASCII lowercasing, substring search, split and join.
- `matcher.dfy` (`Matcher`): the phrase matcher.
- `partition.dfy` (`Partition`): the records and the two filters.
- `paths.dfy` (`OutputPaths`): the removed-file path rule.

The phrase list (lines 35-118) is a parameter of every member. A few of its
entries appear in the example lemmas.

Two edge cases follow Python's semantics:
- `"" in s` is true for every `s`, so an empty phrase flags every text,
  including the empty one (`Matcher.EmptyText`,
  `Matcher.EmptyPhraseMatchesEverything`). The shipped list holds no empty
  phrase.
- `args.removed_file if args.removed_file else ...` tests truthiness, so an
  empty `--removed_file` also falls back to the default
  (`OutputPaths.NoDotAndEmptyArgument`).

## Model

| member | source | states |
|---|---|---|
| `Text.Lower` | dataset_filters/openai_cleaner.py:18 | lowercasing a character maps `A`..`Z` to `a`..`z`, keeps every other character, and never yields an upper-case ASCII letter |
| `Text.LowerStr` | dataset_filters/openai_cleaner.py:18 | `str.lower()` keeps the length and lowercases each position on its own |
| `Text.LowerStrIdempotent` | dataset_filters/openai_cleaner.py:18 | lowercasing an already lowercased string changes nothing |
| `Text.LowerStrAppend` | dataset_filters/openai_cleaner.py:18 | lowercasing distributes over concatenation |
| `Text.Contains` | dataset_filters/openai_cleaner.py:18 | the left-to-right search for `pat in text` is true iff `pat` occurs at some position of `text` |
| `Text.EmptyIsSubstring` | dataset_filters/openai_cleaner.py:18 | the empty string is in every text |
| `Text.SubstringOfEmpty` | dataset_filters/openai_cleaner.py:18 | only the empty string is in the empty text |
| `Text.Split` | dataset_filters/openai_cleaner.py:33 | `split` returns at least one piece, and no piece holds the separator |
| `Text.JoinSplit` | dataset_filters/openai_cleaner.py:33 | joining the pieces of a split with the separator gives back the original string |
| `Text.SplitJoin` | dataset_filters/openai_cleaner.py:33 | splitting a join of separator-free pieces gives back the pieces |
| `Text.SplitFirstPiece` | dataset_filters/openai_cleaner.py:33 | piece 0 of a split is the prefix before the first separator, or the whole string when there is none |
| `Matcher.ContainsUnwantedWords` | dataset_filters/openai_cleaner.py:5-20 | true iff some phrase of the list, lowercased, is a contiguous substring of the lowercased text; false for an empty list |
| `Matcher.CheckUnwanted` | dataset_filters/openai_cleaner.py:17-20 | the loop with the early `return True` gives the same answer: true iff some phrase occurs after lowercasing |
| `Matcher.CaseInsensitive` | dataset_filters/openai_cleaner.py:18 | texts and phrase lists that lowercase to the same strings get the same verdict |
| `Matcher.LoweringInputsChangesNothing` | dataset_filters/openai_cleaner.py:18 | lowercasing the text or every phrase beforehand does not change the verdict |
| `Matcher.Monotone` | dataset_filters/openai_cleaner.py:17-19 | a text flagged by a list stays flagged by any list that holds all of that list's phrases |
| `Matcher.PhraseOrderAndDuplicatesIrrelevant` | dataset_filters/openai_cleaner.py:17-19 | two lists with the same phrases, in any order and with any repeats, give the same verdict; the early exit only picks which phrase triggers |
| `Matcher.AppendPhrases` | dataset_filters/openai_cleaner.py:17-19 | matching against two concatenated lists is matching against either list |
| `Matcher.EmptyPhraseMatchesEverything` | dataset_filters/openai_cleaner.py:18 | a list holding the empty phrase flags every text |
| `Matcher.EmptyText` | dataset_filters/openai_cleaner.py:17-20 | the empty text is flagged exactly when the list holds the empty phrase |
| `Matcher.ShoutedDisclaimerMatches` | dataset_filters/openai_cleaner.py:18 | "AS AN AI LANGUAGE MODEL" is flagged by the phrase "as an AI language model" |
| `Matcher.SubstringNotWord` | dataset_filters/openai_cleaner.py:18 | the phrase "ai" flags "TRAIL", because matching ignores word boundaries, and does not flag "plan" |
| `Partition.Select` | dataset_filters/openai_cleaner.py:131-132 | a filter never returns more records than it is given |
| `Partition.SelectMembers` | dataset_filters/openai_cleaner.py:131-132 | a record is in a filter's output iff it is in the input and its verdict is the one the filter keeps |
| `Partition.NewDataset` | dataset_filters/openai_cleaner.py:131 | `new_dataset` holds exactly the input records whose `response` contains no listed phrase, and it is never longer than the input; `PartitionConservesRecords` and `CleaningIsIdempotent` give its relation to `removed_dataset` and to itself |
| `Partition.RemovedDataset` | dataset_filters/openai_cleaner.py:132 | `removed_dataset` holds exactly the input records whose `response` contains a listed phrase, and it is never longer than the input; `PartitionConservesRecords` shows it complements `new_dataset` |
| `Partition.PartitionConservesRecords` | dataset_filters/openai_cleaner.py:131-132 | the two outputs together hold exactly the input's records, with their multiplicities, and their sizes add up to the input's size |
| `Partition.PartitionIsTotalAndDisjoint` | dataset_filters/openai_cleaner.py:131-132 | every input record is in exactly one output; kept records contain no listed phrase, and removed records contain at least one |
| `Partition.SelectIdempotent` | dataset_filters/openai_cleaner.py:131-132 | re-filtering an output with the same predicate returns it unchanged; filtering it with the opposite predicate returns nothing |
| `Partition.CleaningIsIdempotent` | dataset_filters/openai_cleaner.py:131-132 | cleaning the cleaned dataset again removes nothing and keeps everything |
| `Partition.SelectAppend` | dataset_filters/openai_cleaner.py:131-132 | filtering a concatenation is concatenating the filtered parts, so the input order is kept and each record is judged on its own |
| `Partition.SelectSplits` | dataset_filters/openai_cleaner.py:121-132 | `DatasetDict.filter` keeps the split names, and each output split holds exactly the records of the input split with the requested verdict; `SplitsConserveRecords` proves the two outputs conserve every split |
| `Partition.SplitsConserveRecords` | dataset_filters/openai_cleaner.py:121-132 | filtering a `DatasetDict` keeps its split names, and within every split the two outputs together hold exactly the split's records |
| `Partition.RefusalIsRemoved` | dataset_filters/openai_cleaner.py:131-132 | in a two-row dataset, the row "I cannot fulfill your request" is removed and "The answer is 42." is kept |
| `OutputPaths.Stem` | dataset_filters/openai_cleaner.py:33 | `out_file.split(".")[0]` is a `.`-free prefix of `out_file` that stops at the first `.` or at the end of the string |
| `OutputPaths.DefaultRemovedFile` | dataset_filters/openai_cleaner.py:33 | the default path ends in `_removed.json`, and what comes before is the `.`-free prefix of `out_file` that stops at its first `.` or at its end; `ResolveRemovedFile` uses it when `--removed_file` is missing or empty |
| `OutputPaths.ResolveRemovedFile` | dataset_filters/openai_cleaner.py:33 | a non-empty `--removed_file` is used unchanged; otherwise the path is the part of `out_file` before its first `.`, followed by `_removed.json` |
| `OutputPaths.StemIsUnique` | dataset_filters/openai_cleaner.py:33 | the stem is the only string with those prefix properties, so they define it fully |
| `OutputPaths.CleanJson` | dataset_filters/openai_cleaner.py:33 | `clean.json` gives `clean_removed.json` |
| `OutputPaths.FirstDotWins` | dataset_filters/openai_cleaner.py:33 | example: `data.v2.json` gives `data_removed.json`, so everything after the first `.` is dropped (the general rule is `Stem` with `StemIsUnique`) |
| `OutputPaths.NoDotAndEmptyArgument` | dataset_filters/openai_cleaner.py:33 | an empty `--removed_file` with `out_file` `cleaned` gives `cleaned_removed.json` |
| `OutputPaths.LeadingDotGivesEmptyStem` | dataset_filters/openai_cleaner.py:33 | an `out_file` that starts with `.`, such as `./out/clean.json`, gives just `_removed.json` |
| `OutputPaths.ExplicitPathWins` | dataset_filters/openai_cleaner.py:33 | `--removed_file refusals.json` is used as given |

## Left out

- `Text.Lower` covers ASCII `A`..`Z` only. Python's `str.lower()` follows the Unicode case tables and can change a string's length (`"İ".lower()` has two characters). The list holds non-ASCII phrases (lines 89, 93, 96 and 100), and their non-ASCII capitals are not folded here.
- Loading the dataset (lines 120-126) is library I/O and is not modelled. This includes the Parquet load at line 121, which runs before the extension checks. The model starts from the loaded records, split by split.
- `save_to_disk` (lines 135 and 138), the progress `print`s (lines 134 and 137) and the `tqdm` import are output only.
- Argument parsing (lines 140-147) is left out. Only its result for `--removed_file`, an optional string, enters `OutputPaths.ResolveRemovedFile`.
- Two error paths are excluded by the record type, whose `response` is always a string. Either one aborts the whole run inside the filter lambda at line 131:
  - a row without a `response` column, where `x['response']` raises `KeyError`;
  - a `response` that is `null` (Python `None`) or not a string, where `text.lower()` at line 18 raises `AttributeError`.
- The internals of the `datasets` library's `filter` (batching, caching, Arrow storage) are modelled as plain in-order sequence filtering.
- The literal phrase list (lines 35-118) is a parameter. Only a few of its entries appear, in example lemmas.
- `Text.Split` covers a one-character separator only. That is the only form the cleaner calls.
