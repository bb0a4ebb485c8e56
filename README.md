# Word count as map-shuffle-reduce, in Dafny

This project models the single-machine word-count job of `tests/test_homework.py`.
The job reads lines of text. It turns each line into `(word, 1)` pairs, groups the
pairs by word and sums each group. It then writes the `(word, count)` aggregates,
largest count first, to the report `part-00000`, one `word\tcount\n` line each.
Last, it writes the marker `_SUCCESS`.

One module per stage, one file each:

- `Tokenizer` (tokenizer.dfy) models `preprocess_line` and the `split()` inside `map_line`.
  `preprocess_line` strips the line, lowercases it, and replaces every character
  outside `[a-záéíóúüñ0-9\s]` with one space. Characters are Dafny `char`s. Whitespace
  is the set Python's `str.isspace` accepts, which is the set `strip()`, `split()`
  and the regex `\s` use. `toolz.concat` is the generic `Concat`.
- `Mapper` (mapper.dfy) models `map_line` and `mapper` (`list(concat(map(map_line, lines)))`).
- `Grouper` (grouper.dfy) models `shuffle_and_sort`.
  - `ShuffleAndSort` is a method with a loop. It appends each value to its key's list
    in a map and records keys in first-insertion order, as a `defaultdict` does.
  - It is proved equal to the function `GroupBy`: one group per distinct key, in
    first-occurrence order, each holding that key's values in input order.
- `Reducer` (reducer.dfy) models `compute_sum_by_group` and `reducer`. `sum` is a left fold.
- `Output` (output.dfy) models the sort and line format of `save_output`.
  - `sorted(..., key=lambda x: -x[1])` is modelled by a stable insertion sort on the count, descending. Any stable sort on this key gives the same output: `Output.SortByCountDesc` and `Output.SortStable` together fix it uniquely.
  - `f"{k}\t{v}\n"` is `FormatLine`, and `ParseLine` reads a line back.
  - The writing loop is the method `SaveOutput`. It returns the successive arguments of `f.write`.
- `Job` (job.dfy) models `run_job`. It returns the ordered list of its effects on the
  output directory: create it, write the report, then write the marker.
- `Scenarios` (scenarios.dfy) works concrete inputs through the pipeline.
  - `"Hello, World! 123"` gives the tokens `hello`, `world` and `123`.
  - The lines `cat dog` and `cat` give the report `cat 2`, `dog 1`.

Two orders are fixed by the code, and the model keeps both:
- a `dict` yields its keys in insertion order, so groups come in order of first occurrence;
- Python's `sorted` is stable, so aggregates with equal counts keep the reducer's order.

So words with equal counts appear in the report in order of their first occurrence in
the lines the job is given (`Output.SortStable` with `Job.WordCountSpec`).

## Model

| member | source | states |
|---|---|---|
| Tokenizer.IsSpace | tests/test_homework.py:44-51 | no contract of its own: the whitespace set of `str.isspace` (0x09-0x0D, 0x1C-0x20, 0x85, 0xA0, 0x1680, 0x2000-0x200A, 0x2028, 0x2029, 0x202F, 0x205F, 0x3000), used by `strip()`, the regex `\s` and `split()` |
| Tokenizer.IsWordChar | tests/test_homework.py:45 | no contract of its own: the word characters of the regex class, `a`-`z`, `á é í ó ú ü ñ` (0xE1, 0xE9, 0xED, 0xF3, 0xFA, 0xFC, 0xF1) and `0`-`9` |
| Tokenizer.Kept | tests/test_homework.py:45 | no contract of its own: the regex class `[a-záéíóúüñ0-9\s]`, word characters or whitespace |
| Tokenizer.Lower | tests/test_homework.py:44 | `A`-`Z` and `ÁÉÍÓÚÜÑ` become the small letter 0x20 above them; a character lowers to a word character exactly when it is one or is one of those capitals; word characters are unchanged; no result is such a capital; whitespace stays whitespace and nothing else becomes whitespace |
| Tokenizer.LowerIdempotent | tests/test_homework.py:44 | lowering a lowered character changes nothing |
| Tokenizer.TrimStart | tests/test_homework.py:44 | the left half of `strip()` returns a suffix of the line that is empty or starts with a non-space |
| Tokenizer.TrimEnd | tests/test_homework.py:44 | the right half of `strip()` returns a prefix of the line that is empty or ends with a non-space |
| Tokenizer.TrimStartDropsSpaces | tests/test_homework.py:44 | every character `strip()` removes at the front is whitespace |
| Tokenizer.TrimEndDropsSpaces | tests/test_homework.py:44 | every character `strip()` removes at the back is whitespace |
| Tokenizer.StripTrimmed | tests/test_homework.py:44 | a line with no whitespace at either end is left unchanged by `strip()` |
| Tokenizer.StripChars | tests/test_homework.py:44 | every character `strip()` keeps comes from the line |
| Tokenizer.Strip | tests/test_homework.py:44 | no contract of its own: `strip()` is the right half after the left half; stated by TrimStart, TrimEnd, TrimStartDropsSpaces, TrimEndDropsSpaces and StripTrimmed |
| Tokenizer.LowerAll | tests/test_homework.py:44 | `lower()` on a string keeps its length; each character is lowered by Lower (PreprocessAt) |
| Tokenizer.Scrub | tests/test_homework.py:45 | `re.sub` with a one-character class and a one-space replacement keeps the length; the per-character replacement is stated by PreprocessAt |
| Tokenizer.Preprocess | tests/test_homework.py:41-46 | `preprocess_line` does not change the length of the stripped line |
| Tokenizer.PreprocessAt | tests/test_homework.py:44-45 | each result character is the lowercased stripped character when that is in the kept class, else one space; it is always in the class, and it is whitespace exactly when the lowercased character is not a word character |
| Tokenizer.PreprocessKept | tests/test_homework.py:44-45 | every character of `preprocess_line`'s result is in `[a-záéíóúüñ0-9\s]` |
| Tokenizer.PreprocessFixesWordText | tests/test_homework.py:41-46 | text of word characters and single spaces with no space at either end is a fixed point of `preprocess_line` |
| Tokenizer.WordPrefix | tests/test_homework.py:51 | the first word `split()` cuts off is a prefix of the text that ends at whitespace or at the end |
| Tokenizer.WordPrefixNoSpace | tests/test_homework.py:51 | the first word `split()` cuts off holds no whitespace |
| Tokenizer.Split | tests/test_homework.py:51 | no contract of its own: `split()` with no argument; stated by SplitKeepsCharacters, SplitWords, SplitOfSpaces, SplitFirstWord, SplitSkipsSpaces and SplitWordThenSpaces |
| Tokenizer.SplitKeepsCharacters | tests/test_homework.py:51 | `split()` loses and adds no character: its words run together are the text with whitespace removed |
| Tokenizer.SplitWords | tests/test_homework.py:51 | every word `split()` yields is non-empty and holds no whitespace |
| Tokenizer.SplitOfSpaces | tests/test_homework.py:51 | an empty or all-whitespace text splits into no words |
| Tokenizer.SplitSkipsSpace | tests/test_homework.py:51 | leading whitespace does not change `split()` |
| Tokenizer.TrimStartSkipsSpaces | tests/test_homework.py:44 | a run of leading whitespace of any length is removed entirely by the left half of `strip()` |
| Tokenizer.SplitFirstWord | tests/test_homework.py:51 | text starting with a non-space splits into its first word followed by the split of what follows that word |
| Tokenizer.SplitSkipsSpaces | tests/test_homework.py:51 | a run of leading whitespace of any length does not change `split()` |
| Tokenizer.SplitWordThenSpace | tests/test_homework.py:51 | a word, any one whitespace character (space, tab, newline, no-break space, ...) and more text split into that word followed by the split of the rest |
| Tokenizer.SplitWordThenSpaces | tests/test_homework.py:51 | a word, any non-empty run of whitespace and more text split into that word followed by the split of the rest |
| Tokenizer.SplitOfWord | tests/test_homework.py:51 | a single word splits into itself |
| Tokenizer.SplitJoinWords | tests/test_homework.py:51 | round trip: splitting words joined by single spaces gives back the words |
| Tokenizer.SplitWordChars | tests/test_homework.py:45-51 | every word split out of text over word characters and whitespace consists of word characters |
| Tokenizer.Tokens | tests/test_homework.py:51 | no contract of its own: the word list `preprocess_line(x).split()`; stated by TokensAreWords, TokensIdempotent and TokensOfPunctuation |
| Tokenizer.TokensAreWords | tests/test_homework.py:44-51 | every token of a line is non-empty, free of whitespace and made of `[a-záéíóúüñ0-9]` |
| Tokenizer.TokensIdempotent | tests/test_homework.py:41-51 | tokenizing the tokens of a line, joined by spaces, gives the same tokens |
| Tokenizer.TokensOfPunctuation | tests/test_homework.py:41-51 | a line none of whose characters lowercases to a word character, the empty line included, has no tokens |
| Tokenizer.Concat | tests/test_homework.py:57 | no contract of its own: `toolz.concat` run together in order; stated by ConcatAppend and SplitKeepsCharacters |
| Tokenizer.ConcatAppend | tests/test_homework.py:57 | `concat` distributes over concatenation |
| Mapper.Emit | tests/test_homework.py:52 | the comprehension `[(w, 1) for w in words if w]` emits at most one pair per word, each with value 1 and a non-empty word |
| Mapper.EmitDropsEmpty | tests/test_homework.py:52 | the `if w` filter drops an empty word wherever it stands and changes nothing else; with EmitAll this fixes the comprehension on every word list |
| Mapper.EmitAll | tests/test_homework.py:52 | when no word is empty, the `if w` filter drops nothing: pair `i` is `(words[i], 1)` |
| Mapper.MapLine | tests/test_homework.py:49-52 | no contract of its own: `map_line`; stated by MapLineSpec and MapLineOfPunctuation |
| Mapper.MapLineSpec | tests/test_homework.py:49-52 | `map_line` emits exactly `(t, 1)` for each token `t` of the line, in order, and every key is a non-empty word of word characters |
| Mapper.MapLineOfPunctuation | tests/test_homework.py:49-52 | an empty or all-punctuation line emits `[]` |
| Mapper.Map | tests/test_homework.py:57 | `map` yields one result per input |
| Mapper.MapAt | tests/test_homework.py:57 | element `i` of `map(f, xs)` is `f(xs[i])` |
| Mapper.MapAppend | tests/test_homework.py:57 | `map` distributes over concatenation |
| Mapper.MapAll | tests/test_homework.py:55-57 | no contract of its own: `mapper`; stated by MapAllCons, MapAllAppend, MapAllLength and MapAllPairs |
| Mapper.MapAllCons | tests/test_homework.py:55-57 | `mapper`'s output is the first line's pairs followed by the rest's |
| Mapper.MapAllAppend | tests/test_homework.py:55-57 | `mapper` of two line lists together is the concatenation of their outputs, in order |
| Mapper.MapAllLength | tests/test_homework.py:55-57 | `mapper`'s output length is the sum of the per-line output lengths |
| Mapper.MapAllPairs | tests/test_homework.py:55-57 | every pair `mapper` emits is `(word, 1)` for a non-empty word of word characters |
| Grouper.GroupBy | tests/test_homework.py:60-65 | no contract of its own: the reference group-by that ShuffleAndSort is proved equal to; stated by GroupBySpec |
| Grouper.ShuffleAndSort | tests/test_homework.py:60-65 | the `defaultdict` loop yields exactly `GroupBy(pairs)`: keys in first-insertion order, each with its values in input order |
| Grouper.GroupBySpec | tests/test_homework.py:62-65 | one group per distinct key, no key twice, keys are exactly the input's keys, each group is that key's values in input order, and its length is the key's occurrence count, never 0 |
| Grouper.ValuesOfLength | tests/test_homework.py:63-64 | a key's list has one entry per occurrence of the key |
| Grouper.ValuesOfAppend | tests/test_homework.py:63-64 | a key's list for concatenated inputs is its list for the first part followed by its list for the second |
| Grouper.DistinctKeysMembership | tests/test_homework.py:62-65 | a key is in the dictionary exactly when it occurs in the input |
| Grouper.DistinctKeysUnique | tests/test_homework.py:65 | no key appears twice among the dictionary's keys |
| Grouper.DistinctKeysPrefix | tests/test_homework.py:63-65 | the keys discovered in a prefix of the input are the first keys of the whole dictionary, in the same order |
| Reducer.Sum | tests/test_homework.py:71 | no contract of its own: `sum` as a left fold from 0; stated by SumOfOnes and SumAppend |
| Reducer.ComputeSumByGroup | tests/test_homework.py:68-71 | `compute_sum_by_group` keeps the key, and a group of ones sums to its size |
| Reducer.Reduce | tests/test_homework.py:74-76 | `reducer` returns one pair per group, same key, same order, and a group of ones becomes its size |
| Reducer.SumOfOnes | tests/test_homework.py:71 | `sum` of a list of ones is its length |
| Reducer.SumAppend | tests/test_homework.py:71 | `sum` distributes over concatenation |
| Reducer.UnitGroupSum | tests/test_homework.py:63-71 | for pairs whose values are all 1, the sum of a key's list is the key's occurrence count |
| Reducer.GroupSumSnoc | tests/test_homework.py:63-64 | one more pair adds its value to the group sum of its key and nothing to the others |
| Reducer.GroupSumTotal | tests/test_homework.py:62-65 | the group sums over all distinct keys add up to the sum of all values: grouping loses and duplicates nothing |
| Reducer.TotalOfSums | tests/test_homework.py:74-76 | the total of aggregates built from groups equals the sum of the group sums |
| Reducer.ReduceTotal | tests/test_homework.py:62-76 | conservation: the counts of `reducer(shuffle_and_sort(pairs))` add up to the sum of the input values |
| Reducer.ReduceSums | tests/test_homework.py:60-76 | aggregate `i` of `reducer(shuffle_and_sort(pairs))` is the `i`-th distinct key with the sum of all its values, for any values |
| Reducer.ReduceCounts | tests/test_homework.py:57-76 | for `(word, 1)` pairs, aggregate `i` is the `i`-th distinct word with its occurrence count (never 0), no word twice, and the counts add up to the number of pairs |
| Output.Insert | tests/test_homework.py:88 | one insertion step of the sort adds one element, placed at the front or behind the old first element |
| Output.InsertSorted | tests/test_homework.py:88 | inserting into a list with non-increasing counts keeps it non-increasing |
| Output.InsertPerm | tests/test_homework.py:88 | inserting adds exactly the inserted aggregate, as a multiset |
| Output.InsertStable | tests/test_homework.py:88 | the inserted aggregate lands before every aggregate with its count, and the rest of each count's run keeps its order |
| Output.SortByCountDesc | tests/test_homework.py:88 | the sort returns a permutation of its input whose counts never increase |
| Output.SortedFixed | tests/test_homework.py:88 | every list already ordered by count, largest first, sorts to itself |
| Output.SortIdempotent | tests/test_homework.py:88 | sorting the sorted list changes nothing |
| Output.SortStable | tests/test_homework.py:88 | stability: for every count, the aggregates with that count keep their input order |
| Output.SortMembers | tests/test_homework.py:88 | the sort keeps every aggregate and adds none |
| Output.InsertUnique | tests/test_homework.py:88 | inserting a new word into a list of distinct words keeps the words distinct |
| Output.SortUnique | tests/test_homework.py:88 | sorting keeps words distinct |
| Output.InsertTotal | tests/test_homework.py:88 | inserting adds its count to the total |
| Output.SortTotal | tests/test_homework.py:88 | sorting does not change the total of the counts |
| Output.DigitChar | tests/test_homework.py:89 | a digit value becomes a character between `0` and `9` |
| Output.IntToDecimal | tests/test_homework.py:89 | `str` of an integer is non-empty and starts with a minus sign exactly when the integer is negative |
| Output.NatToDecimal | tests/test_homework.py:89 | `str` of a non-negative count is a non-empty string of digits with no leading zero |
| Output.DecimalValueOfDecimal | tests/test_homework.py:89 | the digits `str` writes for a non-negative number denote that number |
| Output.ParseIntOfDecimal | tests/test_homework.py:89 | every integer `str` writes reads back as itself |
| Output.FindTab | tests/test_homework.py:89 | the tab search finds the first tab of a line, or reports that there is none |
| Output.FindTabAfter | tests/test_homework.py:89 | in `k + "\t" + rest` with no tab in `k`, the first tab is right after `k` |
| Output.ParseFormatLine | tests/test_homework.py:89 | round trip: the line `f"{k}\t{v}\n"` for a word without tabs reads back as `(k, v)` |
| Output.FormatLine | tests/test_homework.py:89 | the line `f"{k}\t{v}\n"` starts with the word, has a tab right after it and ends with a newline |
| Output.SaveOutput | tests/test_homework.py:84-89 | the writing loop writes one line per aggregate; line `i` is the format of the `i`-th aggregate in count order and, for a word without a tab, reads back as that aggregate |
| Job.WordCount | tests/test_homework.py:101-104 | no contract of its own: the stage chain load, `mapper`, `shuffle_and_sort`, `reducer`, then the sort of `save_output`; stated by WordCountSpec |
| Job.RunJob | tests/test_homework.py:99-107 | `run_job` creates the directory, then writes the report, then the marker with its fixed text; report line `i` is the `i`-th word count and reads back as it |
| Job.KeyOfPairs | tests/test_homework.py:52-57 | every key of the mapper's output is a non-empty word of word characters |
| Job.ReportEntries | tests/test_homework.py:57-88 | each report entry is a word of the input, without whitespace or tab, with its number of occurrences, never 0 |
| Job.ReportMembers | tests/test_homework.py:57-88 | a word is in the report with its occurrence count exactly when it occurs in the mapper's output |
| Job.WordCountSpec | tests/test_homework.py:99-104 | the report lists each word once with its occurrence count, counts never increase, equal counts keep the reducer's first-occurrence order, and the counts add up to the number of mapped pairs |
| Scenarios.PreprocessExample | tests/test_homework.py:41-46 | `preprocess_line("Hello, World! 123")` is `"hello  world  123"` |
| Scenarios.SplitThree | tests/test_homework.py:51 | three words separated twice by the same run of whitespace split into exactly those three words |
| Scenarios.SplitExample | tests/test_homework.py:51 | `"hello  world  123".split()` is `["hello", "world", "123"]`, with no empty word |
| Scenarios.TokensExample | tests/test_homework.py:41-52 | the line `Hello, World! 123` yields the tokens `hello`, `world`, `123` |
| Scenarios.TwoWordLine | tests/test_homework.py:49-52 | `map_line("cat dog")` is `[("cat", 1), ("dog", 1)]` |
| Scenarios.MapAllTwo | tests/test_homework.py:55-57 | `mapper` on two lines is the first line's pairs followed by the second's |
| Scenarios.EmitFilterExample | tests/test_homework.py:52 | the word list `["", "a"]` gives the single pair `("a", 1)`: the empty word is dropped |
| Scenarios.MapAllExample | tests/test_homework.py:55-57 | `mapper(["cat dog", "cat"])` is `[("cat", 1), ("dog", 1), ("cat", 1)]` |
| Scenarios.GroupExample | tests/test_homework.py:60-65 | grouping those pairs gives `cat` first with 2 occurrences, then `dog` with 1 |
| Scenarios.ReduceExample | tests/test_homework.py:60-76 | `reducer(shuffle_and_sort(...))` of those pairs is `[("cat", 2), ("dog", 1)]` |
| Scenarios.SortExample | tests/test_homework.py:88 | the list `[("cat", 2), ("dog", 1)]`, already in count order, sorts to itself |
| Scenarios.WordCountExample | tests/test_homework.py:99-107 | the lines `cat dog` and `cat` give the report `cat 2`, then `dog 1` |
| Scenarios.WordCountEmpty | tests/test_homework.py:99-107 | no input lines give an empty report |

## Left out

- `load_input` (tests/test_homework.py:29-36) lists a directory and reads files, which is file I/O. `RunJob` and `WordCount` take the lines it returns as their input. A line's trailing newline is whitespace, and `strip()` removes it. It joins the files in `os.listdir` order, which Python leaves unspecified, so over several input files the order of first occurrence, and with it the order of words with equal counts in the report, is not fixed by the code; the model fixes it for the lines it is given.
- `copy_raw_files_to_input_folder` (tests/test_homework.py:14-26) and the `__main__` block (tests/test_homework.py:110-121) copy files, time the job and print, which is file I/O and wall-clock time.
- `create_directory`, `create_marker` and the file opening in `save_output` (tests/test_homework.py:79-96) are modelled only as the ordered `Job.Event` values `RunJob` returns. Paths, `os.path.join`, encodings and I/O failures are not modelled.
- Tokenizer.Lower: only the ASCII capitals and the Latin-1 capitals U+00C0 to U+00DE (except U+00D7) are lowered. Other Unicode case mappings, such as Greek, Cyrillic, the Kelvin sign or the two-character lowering of U+0130, leave the character unchanged. So a character like that becomes a space in the model where Python might keep a letter.
- `toolz.itertoolz.concat` is a foreign library. It is modelled as plain flattening, `Tokenizer.Concat`.
- tests/test_toolz_import.py is an environment smoke test of the `toolz` imports with no logic of its own.
- Tokenizer.Preprocess: its own contract states only the length. The per-character meaning is stated by `Tokenizer.PreprocessAt` and `Tokenizer.PreprocessKept`, which keeps the quantifier out of every proof that mentions `Preprocess`.
- Mapper.Map: its own contract gives only the length of the result. `Mapper.MapAt` states that element `i` is `f(xs[i])`, which keeps the quantifier out of every proof that mentions `map_line`.
- Reducer.Reduce: its own contract gives the count only for groups of ones. For any values, `Reducer.ReduceSums` states that each count is the sum of its key's values, and `Reducer.ReduceTotal` states that the counts add up to the sum of all values.
