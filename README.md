# Chess puzzle rating buckets, in Dafny

This project models the data-preparation script
`data/scripts/create_puzzle_dataset.py` of a chess-puzzle dataset pipeline.
It covers the two steps of that script that are logic rather than I/O.

- **Row normalisation** (`extract_dataset`). Each decompressed line is
  stripped of surrounding whitespace and split on `,`. The fields become one
  row of the normalised CSV.
- **Rating buckets** (`process_puzzles`). A puzzle record is a map from
  field name to value.
  - A record is kept when its `Rating` field, stripped, is a string of
    digits. A missing field counts as `""`, which is dropped.
  - Each kept record is appended, in input order, to the list of its
    100-point bin `(rating // 100) * 100`.
  - Each bin's list is then sorted by the `Themes` field (missing counts as
    `""`) with Python's stable sort.
  - The list is written, under the input's header, to
    `data/puzzles/puzzles_<bin>.csv`.

`process_puzzles` writes one CSV file per rating bin; the rows of each file
are the records of that bin, ordered by theme.

Modules:

- `Text`: Python's `str.strip()`, `str.isdigit()`, `int(...)` and `str(...)`
  on naturals, `str.split` and `str.join` with a one-character separator,
  and code-point string order.
- `Extraction`: the line-to-row step.
- `Bucketing`: the record filter, the bin arithmetic and the grouping loop.
  - The grouping theory (`Grouped`, `Members`, `Kept` and their lemmas) is
    stated for any function that maps an item to a bin or drops it.
  - `GroupByRating` instantiates it with the script's own `BinOf`.
- `ThemeSort`: a stable sort by a string key, defined by insertion. It is
  proved sorted, a permutation and stable. It is also proved to be the
  *only* list with those properties, so it agrees with Python's `list.sort`.
  `ThemeKey` is the key the script passes.
- `Output`: file naming, the writing loop and the whole of
  `process_puzzles` on parsed input.
  - The writing loop `WriteBins` takes the bin-to-path function as a
    parameter and requires it to be injective.
  - `ProcessPuzzles` passes the script's `OutputPath` and discharges that
    requirement with `OutputPathInjective`.

Every cell in the source column is a path and line in
`data/scripts/create_puzzle_dataset.py`.

## Model

| member | source | states |
|---|---|---|
| Bucketing.Get | data/scripts/create_puzzle_dataset.py:56 | `d.get(key, default)`: the field's value when present, the default otherwise; its uses are pinned by BlankRatingDropped and PaddedRatingKept |
| Bucketing.RatingText | data/scripts/create_puzzle_dataset.py:56 | `puzzle.get("Rating", "").strip()`; StripPadded and BlankRatingDropped state what it returns for padded and blank ratings |
| Bucketing.BinOf | data/scripts/create_puzzle_dataset.py:56-60 | the per-record filter and bin: BinOfBounds states it keeps a record if and only if the stripped rating is a non-empty digit string, and then gives the multiple of 100 within 100 below the rating |
| Bucketing.AddRecord | data/scripts/create_puzzle_dataset.py:57-61 | one iteration of the loop: a kept item appended to the end of its bin's list, a dropped one ignored; GroupByRating proves the loop body performs exactly this step |
| Bucketing.Grouped | data/scripts/create_puzzle_dataset.py:48-61 | the dictionary after the loop; GroupedIsMembers equates each list with the independent Members filter, and Partition, BinKeys and GroupedTotal state the partition, key and size properties |
| ThemeSort.ThemeKey | data/scripts/create_puzzle_dataset.py:71 | the sort key `lambda x: x.get("Themes", "")`; ProcessPuzzles sorts each bin with it, so SortByKey, SortStable and StableSortUnique hold for the `Themes` order |
| Output.FileName | data/scripts/create_puzzle_dataset.py:68 | `f"puzzles_{rating_bin}.csv"`; FileNameRoundTrip states it reads back as the bin |
| Output.OutputPath | data/scripts/create_puzzle_dataset.py:68 | the file's path under `data/puzzles`; OutputPathInjective states distinct bins get distinct paths |
| Text.Split | data/scripts/create_puzzle_dataset.py:41 | `str.split` on one separator, never empty; SplitShape, JoinSplit and SplitJoin state its field count, contents and inverse |
| Text.IsDigits | data/scripts/create_puzzle_dataset.py:57 | `str.isdigit()` on ASCII: false on the empty string, true when every character is a digit; used by BinOfBounds |
| Text.ParseDigits | data/scripts/create_puzzle_dataset.py:58 | `int(...)` on a digit string, leading zeros allowed; Decimal and DecimalOfParse state it is inverse to `str` on canonical numerals |
| Text.StrLe | data/scripts/create_puzzle_dataset.py:71 | Python's `<=` on strings, code point by code point; StrLeReflexive, StrLeTransitive, StrLeTotal and StrLeAntisymmetric state it is a total order |
| Text.Strip | data/scripts/create_puzzle_dataset.py:56 | the stripped text starts and ends with a non-whitespace character (or is empty) and is no longer than the input |
| Text.StripPadded | data/scripts/create_puzzle_dataset.py:56 | `strip()` removes exactly the surrounding whitespace: a trimmed core padded with whitespace on either side strips back to the core |
| Text.StripIdempotent | data/scripts/create_puzzle_dataset.py:41 | stripping an already stripped line changes nothing |
| Text.Decimal | data/scripts/create_puzzle_dataset.py:68 | `str(n)` is a canonical numeral (no leading zero) and `int(str(n)) == n` |
| Text.DecimalOfParse | data/scripts/create_puzzle_dataset.py:58 | `str(int(s)) == s` for every canonical numeral, so `int` and `str` are mutually inverse on canonical numerals |
| Text.DecimalInjective | data/scripts/create_puzzle_dataset.py:68 | distinct bins print as distinct numerals |
| Text.SplitShape | data/scripts/create_puzzle_dataset.py:41 | `split(sep)` gives one more field than there are separators, and no field contains the separator |
| Text.JoinSplit | data/scripts/create_puzzle_dataset.py:41 | joining the fields of a split with the separator gives back the string |
| Text.SplitJoin | data/scripts/create_puzzle_dataset.py:41 | splitting a join gives back the fields, when no field holds the separator |
| Text.StrLeReflexive | data/scripts/create_puzzle_dataset.py:71 | the string order used by the sort is reflexive |
| Text.StrLeTransitive | data/scripts/create_puzzle_dataset.py:71 | the string order used by the sort is transitive |
| Text.StrLeTotal | data/scripts/create_puzzle_dataset.py:71 | any two theme strings are comparable |
| Text.StrLeAntisymmetric | data/scripts/create_puzzle_dataset.py:71 | strings that are each at most the other are equal |
| Extraction.SplitRow | data/scripts/create_puzzle_dataset.py:41 | every line yields a row of at least one field |
| Extraction.SplitRowRoundTrip | data/scripts/create_puzzle_dataset.py:41 | a row has (commas in the stripped line + 1) fields, none holding a comma, and joining them with `,` gives back the stripped line |
| Extraction.ExtractRows | data/scripts/create_puzzle_dataset.py:40-41 | one row per line, in line order, each the split of its stripped line, with the field count and join round trip above |
| Bucketing.Bin | data/scripts/create_puzzle_dataset.py:60 | the bin is a multiple of 100, at most the rating, and less than 100 below it |
| Bucketing.BinUnique | data/scripts/create_puzzle_dataset.py:60 | any multiple of 100 in that range is the bin, so the bounds determine it |
| Bucketing.BinOfBounds | data/scripts/create_puzzle_dataset.py:56-60 | a record is kept if and only if its stripped `Rating` is a non-empty digit string; its bin then satisfies the bounds above |
| Bucketing.BlankRatingDropped | data/scripts/create_puzzle_dataset.py:56-57 | a missing, empty or all-whitespace `Rating` drops the record |
| Bucketing.PaddedRatingKept | data/scripts/create_puzzle_dataset.py:56-60 | digits with whitespace around them are kept, in the bin of the number they spell (leading zeros allowed, as `int` allows) |
| Bucketing.GroupedIsMembers | data/scripts/create_puzzle_dataset.py:55-61 | a bin is a key exactly when some record went to it, and its list is the records with that bin in input order |
| Bucketing.MembersAppend | data/scripts/create_puzzle_dataset.py:61 | the group of a concatenated input is the group of the front followed by that of the back, so appending keeps input order |
| Bucketing.MembersCount | data/scripts/create_puzzle_dataset.py:55-61 | a group holds each record as often as the input does when the record's bin is the group's bin, and not at all otherwise |
| Bucketing.Partition | data/scripts/create_puzzle_dataset.py:55-61 | every kept record is in the group of its bin and in no other group; a dropped record is in no group |
| Bucketing.BinKeys | data/scripts/create_puzzle_dataset.py:48-61 | a bin is a key of the dictionary if and only if some input record has that bin |
| Bucketing.GroupedTotal | data/scripts/create_puzzle_dataset.py:48-61 | the lengths of all groups add up to the number of kept records |
| Bucketing.GroupByRating | data/scripts/create_puzzle_dataset.py:55-61 | the loop builds the dictionary `Grouped`: a key for every bin that received a record, holding that bin's records in input order |
| ThemeSort.SortByKey | data/scripts/create_puzzle_dataset.py:71 | the sorted list is non-decreasing by key and a permutation of its input |
| ThemeSort.SortStable | data/scripts/create_puzzle_dataset.py:71 | for every key, the items with that key keep their input order |
| ThemeSort.SortedAgreeingEqual | data/scripts/create_puzzle_dataset.py:71 | two lists that are sorted by key and hold the same items with each key in the same order are equal |
| ThemeSort.StableSortUnique | data/scripts/create_puzzle_dataset.py:71 | a list is the sort's result if and only if it is sorted by key and keeps each key's items in input order, so any stable sort gives the same list |
| Output.FileNameRoundTrip | data/scripts/create_puzzle_dataset.py:68 | a file name is `puzzles_`, a canonical numeral that reads back as the bin, and `.csv` |
| Output.OutputPathInjective | data/scripts/create_puzzle_dataset.py:68 | distinct bins are written to distinct paths |
| Output.WriteBins | data/scripts/create_puzzle_dataset.py:67-77 | every bin gets the file at its path, holding the input header and the bin's list sorted by theme; every file belongs to a bin; there are as many files as bins |
| Output.ProcessPuzzles | data/scripts/create_puzzle_dataset.py:45-77 | a file is written exactly for each bin some kept record falls into (files left by an earlier run are not part of the result); its rows are that bin's records sorted by theme, a permutation of them, with records sharing a theme in input order |

## Left out

- `download_dataset` (lines 23-29) runs `wget` through `os.system`. This is network I/O, with nothing to state about it.
- zstd decompression, `TextIOWrapper` decoding, file opening and writing, `ensure_dir`, and the existence checks at lines 25 and 33 are library and filesystem I/O. When `lichess_db_puzzle.csv` already exists, `extract_dataset` skips the whole line loop that Extraction.ExtractRows models; when the archive exists, the download is skipped. The model takes already-decoded lines and already-parsed records.
- CSV quoting by `csv.writer`, header parsing by `csv.DictReader`, and serialisation by `csv.DictWriter` are left out. A written file is modelled as its header and its rows, as values. The fragility of splitting on `,` before quoting is kept as written: a quoted field holding a comma is split.
- `tqdm` progress bars, `print`, and `gc.collect()` have no effect on the data.
- `random.seed(42)` is never used by this script, so there is no randomness to model.
- Text.IsDigits: only the ASCII digits `0`-`9` count, and Bucketing.BinOf inherits this. Python's `str.isdigit` also accepts other Unicode characters. For Unicode decimal digits, such as fullwidth `１` or Arabic-Indic `١`, `int` succeeds too, so the script keeps a `Rating` of `１２００` in bin 1200 where the model drops it. For digit characters that are not decimal, such as superscript `²` or circled `①`, `isdigit` passes but `int` raises `ValueError` and ends the run, where the model drops the record silently.
- Fields that `csv.DictReader` fills with `None` for short rows are left out, and every field value is a string, the sort key included. In the script, a row that ends before `Rating` makes `.strip()` on `None` raise `AttributeError`. A row that reaches `Rating` but ends before `Themes` is kept with `Themes` set to `None`, and the sort at line 71 then raises `TypeError` comparing `None` with a string whenever its bin holds another record.
- Output.WriteBins: visits the bins in an unspecified order rather than dictionary insertion order. The files written do not depend on the order, because each bin has its own path.
- Output.WriteBins: the sort is modelled as producing a new list rather than sorting `rating_groups` in place. Nothing reads the lists after they are written.
- Output.OutputPath: `os.path.join` is modelled as joining with `/`.
- Bucketing.GroupedTotal: the total is summed over all bins below a bound that exceeds every key, rather than over the dictionary directly.
- Integers are unbounded in the model, as they are in Python.
- Text.ParseDigits: does not model the interpreter's limit on string-to-integer conversion (4300 digits by default in CPython 3.11 and later and in the security releases of 3.7 to 3.10). A stripped `Rating` longer than that passes `isdigit()` and then makes `int(...)` raise `ValueError`, ending the run; the model keeps such a record.
- Output.ProcessPuzzles: does not model rows longer than the header. Naive splitting on `,` gives a line with a quoted comma more fields than the header; `csv.DictReader` files the extra values under the key `None`, and if such a record is kept, `csv.DictWriter.writerows` raises `ValueError` because the key is not among the field names. A `Record` maps strings to strings, so it cannot hold that key, and the model writes every kept record without error.
