# A verified model of a sequential map/reduce library

The library runs a map/reduce job over one text file on the local file
system, in four phases started one after another by `run_single`:

1. `split` cuts the input file `f` into `nmap` line-aligned map inputs
   `mrtmp.f-0` … `mrtmp.f-(nmap-1)`, by byte offset.
2. `do_map` runs the user's map function on each map input. It spreads the
   emitted key/value pairs over `nreduce` intermediate files
   `mrtmp.f-m-r`, choosing the file by `hash(key) % nreduce`, one
   `"key value\n"` record per line.
3. `do_reduce` reads reduce job `r`'s intermediate file from every map job
   and groups the values by key in a `BTreeMap`. It writes one line per key,
   in key order, holding the reduction of that key's values, to
   `mrtmp.f-res-r`.
4. `merge` reads every result file into one `BTreeMap`, where a later line
   overwrites an earlier one with the same key. It writes the map, in key
   order, to `mrtmp.f`.

The word-count job that comes with the library maps a text to
`(word, "1")` pairs. A word is a whitespace-separated token with its
non-alphanumeric characters dropped. The reduce function adds up the counts.

## How the model is built

- **Files.** The file system is a class `Job.FileStore` with a single field
  `files: map<string, string>`, from file name to whole content. Every phase
  is a method that changes that field. Each method is proved equal to a
  function of the old store (`SplitPhase`, `MapPhase`, `ReducePhase`,
  `MergePhase`, `Pipeline`), and the lemmas state what those functions do.
- **Lines and sizes.** `BufRead::read_line` is `Text.Segments`, which keeps
  each line's `'\n'`. `BufRead::lines` is `Text.Lines`, which strips it. The
  file size used by `split` is the UTF-8 byte length (`Text.ByteLen`).
  `split_whitespace` is `Text.Tokens`, over Unicode's White_Space
  characters.
- **Abstract inputs.** The hash, the map function, the reduce function and
  `char::is_alphanumeric` are function-valued parameters.
- **Outcomes.** A phase ends as `Finished`, `Aborted(fault)` (a panic:
  missing file, division by zero, a line with fewer than two tokens, a
  panicking reduction) or `Hangs` (a `split` that never returns). Each
  outcome comes with the file store as it is left.
- **Sorted maps.** A `BTreeMap` is a strictly sorted association list
  (module `Ordered`). Key order is the lexicographic order on code points,
  the order of `String`'s `Ord`.

The methods are proved equal to these functions, which model the source
directly. The lemmas in the table below state what the functions do.

- `Job.MapName`, `Job.ReduceName` and `Job.MergeName` are `map_filename`,
  `reduce_filename` and `merge_filename` (src/mreduce.rs:18-28).
  `Job.FinalName` is the `mrtmp.f` of `merge` (src/mreduce.rs:160).
- `Job.Record` and `Job.Serialize` are the `write!(buf, "{} {}\n", ..)` of
  `do_map`, `do_reduce` and `merge` (src/mreduce.rs:93, 131, 164).
  `Job.ParseRecord` is `split_whitespace().collect()` with `kv[0]`, `kv[1]`
  (src/mreduce.rs:115-117).
- `Text.Tokens` is `str::split_whitespace`. `Text.Segments` is the
  successive results of `read_line` (src/mreduce.rs:47). `Text.Lines` is
  `BufRead::lines` (src/mreduce.rs:113, 150). `Text.ByteLen` is
  `metadata().len()` (src/mreduce.rs:35-36).
- `Splitter.SplitPhase`, `MapDriver.MapPhase`, `ReduceDriver.ReducePhase`,
  `Merger.MergePhase` and `Coordinator.Pipeline` are `split`, `do_map`,
  `do_reduce`, `merge` and `run_single` as functions from the old store to
  the outcome and new store (src/mreduce.rs:30-63, 71-98, 100-135, 137-168,
  170-187).
- `WordCount.WordPairs` is the word-count `map` (src/main.rs:18-33).
  `WordCount.Sum` and `WordCount.Reduce` are its `reduce`
  (src/main.rs:35-39), with `None` for the panic of `unwrap`.
- `Decimal.Render` is `format!("{}", count)` and `Decimal.Parse` is
  `parse::<usize>` (src/main.rs:36-38).

The module `RunFacts` proves what a whole run computes. It assumes that the
map function emits only pairs of tokens (non-empty strings without
whitespace), so that records read back unchanged, and that every reduction
is a single token. A run that finishes then writes, as the final file,
every key emitted on the chunks of the input. Each key comes once, in
strictly increasing order, with the reduction of all its values. Within one
run `merge` never overwrites a key, since every key reaches exactly one
reduce job (`RunFacts.NoOverwrite`). `WordCountRun` applies this to the
word-count job. `split` cuts the file between lines, so no word is cut in
two, and the map jobs together emit the pairs of the lines they are given
as one map job would. So each word of those lines appears with the decimal
number of its occurrences (`WordCountRun.WordCountResult`). Those lines are
the input file without the tail of whole lines that `split` may leave out.

Where the code and its description differ, the model follows the code:

- `split` never returns when `nmap` divides the file size. This covers
  an empty file and `nmap == 1`.
- `split` leaves out the lines after the last chunk is closed.
- A line with three or more tokens is not an error: the extra tokens are
  ignored.
- A reduction that panics leaves the earlier lines of its result file
  written, because unwinding drops and flushes the `BufWriter`.

## Model

| member | source | states |
|---|---|---|
| Job.NamesDistinct | src/mreduce.rs:18-28 | the file names of the input, the map inputs, the intermediate files, the results and the final file are pairwise distinct for distinct file roles and indices |
| Job.MapNamesDistinct | src/mreduce.rs:18-20 | the map input names `mrtmp.f-0 …` are pairwise distinct |
| Job.SpreadNamesDistinct | src/mreduce.rs:22-24 | the names of one map job's intermediate files are pairwise distinct |
| Job.ParseRecordLayout | src/mreduce.rs:115-117 | a line reads as the pair `(k, v)` exactly when it is optional whitespace, then `k`, then at least one whitespace character, then `v`, then nothing or whitespace followed by anything, with `k` and `v` non-empty and free of whitespace |
| Job.ParseRecordExtra | src/mreduce.rs:115-117 | a line that starts with two tokens reads as exactly those two, whatever follows after whitespace: extra tokens are ignored |
| Job.ParseRecordShort | src/mreduce.rs:115-117 | a line of one token is short and makes the reader panic |
| Job.ParseSerialize | src/mreduce.rs:113-117 | records written as `"key value\n"` for pairs of non-empty, whitespace-free strings read back with `lines()` and `split_whitespace()` as exactly those pairs, in order |
| Ordered.Put | src/mreduce.rs:156 | `BTreeMap::insert`: the key set gains the key, the key now maps to the new value, every other key keeps its value |
| Ordered.PutSorted | src/mreduce.rs:140 | insertion keeps the map's entries strictly sorted by key |
| Ordered.Get | src/mreduce.rs:119 | a lookup finds a value exactly when the key is in the map |
| Ordered.GetSorted | src/mreduce.rs:163 | the entry that iteration visits at position `i` is what a lookup of its key returns |
| Splitter.Split | src/mreduce.rs:30-63 | the loop of `split`, proved to leave the store and return the outcome that `SplitPhase` describes, with a panic on a missing input or `nmap == 0` |
| Splitter.SplitRuns | src/mreduce.rs:39-46 | `split` starts its loop with `mrtmp.f-0` created empty, offset 0, chunk 1 and an empty buffer |
| SplitFacts.ScanShape | src/mreduce.rs:46-62 | the loop only adds chunk closes, in increasing iteration order, at most `nmap` of them, and stops exactly when all `nmap` chunks are closed |
| SplitFacts.ScanBoundaries | src/mreduce.rs:47-58 | chunk `j` closes at the first iteration after the previous close whose starting offset exceeds `nchunk * (j + 1)` |
| SplitFacts.ScanStuck | src/mreduce.rs:47-61 | when the loop never ends, the offset at end of file stays at or below the threshold of the chunk being filled |
| SplitFacts.SplitTraceFacts | src/mreduce.rs:36-62 | one call of `split` has the shape and boundaries above, with `nchunk = size / nmap` |
| SplitFacts.SplitStuck | src/mreduce.rs:36-61 | a hanging `split` leaves the whole file size at or below `size / nmap * k` for the chunk `k` being filled |
| SplitFacts.SplitHangs | src/mreduce.rs:36-61 | `split` never returns exactly when `nmap` divides the file's byte size |
| SplitFacts.SplitCovers | src/mreduce.rs:46-62 | the chunks, in order, are the lines up to the last close, and followed by the lines after it they give back the file: nothing is duplicated or reordered, and only a tail of whole lines is left out |
| SplitFacts.ChunkEnds | src/mreduce.rs:47-51 | a chunk that stops before the file's last line ends in a newline, and one that reaches the last line is followed only by empty chunks |
| SplitFacts.SplitAligned | src/mreduce.rs:46-62 | no token straddles two chunks of `split`: each chunk but the last ends in whitespace, unless only empty chunks follow it |
| SplitFacts.SplitWrites | src/mreduce.rs:39-58 | a `split` that returns writes chunk `j` to `mrtmp.f-j` for every `j < nmap` and changes no other file |
| SplitFacts.SplitHangWrites | src/mreduce.rs:39-61 | a hanging `split` has written its `k < nmap` closed chunks to `mrtmp.f-0` … `mrtmp.f-(k-1)`, has created `mrtmp.f-k` empty, and has changed no other file, the input included |
| MapDriver.BucketText | src/mreduce.rs:91-95 | the inner loop of `do_map` produces the records of exactly the pairs that hash to `r`, in emission order |
| MapDriver.DoMap | src/mreduce.rs:71-98 | `do_map` panics when its input is missing and otherwise writes the `nreduce` intermediate files that `MapPhase` describes |
| MapDriver.SelectMembers | src/mreduce.rs:92 | a pair goes to reduce job `r` exactly when it was emitted and `hash(key) % nreduce == r` |
| MapDriver.SelectExactlyOne | src/mreduce.rs:88-95 | every emitted pair lands in the file of its own bucket and in no other |
| MapDriver.SelectAppend | src/mreduce.rs:91-95 | each intermediate file keeps emission order: selection distributes over concatenation |
| MapDriver.GatherAll | src/mreduce.rs:88-95 | over all `nreduce` files every emitted pair occurs exactly as often as it was emitted (a multiset equality) |
| MapDriver.MapWrites | src/mreduce.rs:86-97 | when its input exists, intermediate file `r` holds the records of the pairs bound for `r` and no other file changes |
| MapDriver.MapNoReducers | src/mreduce.rs:88 | with `nreduce == 0` `do_map` writes nothing |
| MapDriver.MapReadBack | src/mreduce.rs:93 | an intermediate file read back as `do_reduce` reads it yields exactly the pairs written, when keys and values are non-empty and free of whitespace |
| Reading.FoldLines | src/mreduce.rs:113-124 | the loop over one file's lines folds the table update over its records in order, or panics at the first short line |
| Reading.FoldFiles | src/mreduce.rs:105-125 | the loop over the files folds over all their records, in file order then line order, or panics at the first missing file or short line |
| ReduceDriver.GroupGet | src/mreduce.rs:119-123 | after grouping, each key read maps to all of its values in reading order, and keys not read are absent |
| ReduceDriver.GroupSorted | src/mreduce.rs:103 | the grouping table is strictly sorted by key |
| ReduceDriver.GroupSize | src/mreduce.rs:119-123 | the table has one entry per distinct key read |
| ReduceDriver.GroupEntry | src/mreduce.rs:119-123 | entry `i` is a key read, with all of that key's values |
| ReduceDriver.EmitShape | src/mreduce.rs:130-132 | line `i` holds entry `i`'s key and its reduction; writing stops short exactly when some reduction panics, and then at the first such entry |
| ReduceDriver.EmitText | src/mreduce.rs:130-132 | the writing loop produces the records of those lines and reports the key whose reduction panicked |
| ReduceDriver.DoReduce | src/mreduce.rs:100-135 | `do_reduce` leaves the store and outcome that `ReducePhase` describes |
| ReduceDriver.ReduceLines | src/mreduce.rs:103-132 | each result line is a key read with the reduction of all its values, and keys strictly increase from line to line |
| ReduceDriver.ReduceComplete | src/mreduce.rs:130-132 | writing completes exactly when no key's reduction panics, and then every key read is written |
| ReduceDriver.ReduceFirstPanic | src/mreduce.rs:130-131 | a panic happens at the least key whose reduction panics, and every smaller key has been written |
| ReduceDriver.ReduceWrites | src/mreduce.rs:127-134 | once the intermediate files read as `kvs`, the result file holds those lines, and the job finishes exactly when no reduction panics |
| ReduceDriver.ReduceReadFails | src/mreduce.rs:105-117 | a missing intermediate file or a short line panics before the result file is created |
| Merger.MergedGet | src/mreduce.rs:150-157 | the last write wins: the merged table maps each key to the value of its last line read |
| Merger.MergedSorted | src/mreduce.rs:140-157 | the merged table is strictly sorted by key |
| Merger.WriteTable | src/mreduce.rs:163-165 | the writing loop produces one record per table entry, in table order |
| Merger.Merge | src/mreduce.rs:137-168 | `merge` leaves the store and outcome that `MergePhase` describes |
| Merger.MergeWrites | src/mreduce.rs:140-165 | the final file lists every key read exactly once, in strictly increasing order, each with the value of its last occurrence |
| Merger.LastValueUnique | src/mreduce.rs:156 | when no key is read twice nothing is overwritten: each key keeps the one value read for it |
| Merger.LastValueIn | src/mreduce.rs:150-157 | a value the table holds for a key is the value of some line read with that key |
| Coordinator.RunSingle | src/mreduce.rs:170-187 | `run_single` runs split, every map job, every reduce job and merge in that order, stopping at the first panic or hang, as `Pipeline` describes |
| Coordinator.MapAllStops | src/mreduce.rs:178-180 | once a map job panics, no later phase runs |
| Coordinator.ReduceAllStops | src/mreduce.rs:182-184 | once a reduce job panics, no later phase runs |
| Coordinator.MapAllWrites | src/mreduce.rs:178-180 | the map loop finishes exactly when every map input exists, and then every intermediate file holds its share of its map job's pairs; otherwise it stops at a missing map input. Either way no file changes other than the intermediate files `(m, r)` with `m < k` and `r < nreduce` |
| RunFacts.ReducePhaseFrame | src/mreduce.rs:127-134 | one reduce job writes its result file and no other file, and when it returns the file holds its lines |
| RunFacts.ReduceAllWrites | src/mreduce.rs:182-184 | when every reduce job returns, each has read its intermediate files without a panicking reduction and written its result file. Either way no file changes other than the result files of jobs `r < k` |
| RunFacts.CollectSame | src/mreduce.rs:105-117 | reading a list of files depends only on those files |
| RunFacts.GatherRead | src/mreduce.rs:105-124 | reduce job `r` reads exactly the pairs the map jobs emitted that hash to `r`, in map job order and then emission order |
| RunFacts.ValuesForSelect | src/mreduce.rs:92 | all the values of a key go to the reduce job its hash selects, in order |
| RunFacts.BucketOut | src/mreduce.rs:127-132 | a reduce job's lines have distinct keys, all of its bucket, exactly the keys sent to it, each with the reduction of every value emitted for it |
| RunFacts.MergeRead | src/mreduce.rs:142-157 | `merge` reads the result files as their lines one file after another |
| RunFacts.FlattenMembers | src/mreduce.rs:142-157 | a line read by `merge` comes from the result file of its key's bucket |
| RunFacts.FlattenDistinct | src/mreduce.rs:142-157 | result files with distinct keys and disjoint buckets read as lines with pairwise distinct keys |
| RunFacts.MergedKeys | src/mreduce.rs:142-157 | the keys `merge` reads are exactly the keys the map jobs emitted |
| RunFacts.MergeResult | src/mreduce.rs:137-168 | on the result files of one run `merge` reads distinct keys, and writes every emitted key once, in increasing order, with the reduction of all its values |
| RunFacts.AfterMap | src/mreduce.rs:176-180 | after `split` and all map jobs return, intermediate file `(m, r)` holds the pairs map job `m` emitted on chunk `m` that hash to `r` |
| RunFacts.BucketRead | src/mreduce.rs:182-184 | in a finished run, result file `r` holds the reduction of the pairs of all map jobs that hash to `r` |
| RunFacts.Stages | src/mreduce.rs:170-187 | a finished run has split without hanging, mapped every chunk and reduced every bucket, and ends with `merge` on those result files |
| RunFacts.NoOverwrite | src/mreduce.rs:140-165 | within one run `merge` never overwrites: the lines it reads have pairwise distinct keys, because every key reaches one reduce job only |
| RunFacts.RunSingleResult | src/mreduce.rs:170-187 | the final file of a finished run lists every key emitted on the chunks of the input, once each and in increasing order, each with the reduction of all its values in map job order and then emission order |
| RunFacts.RunNoReducers | src/mreduce.rs:182-186 | with no reduce jobs a finished run writes an empty final file |
| WordCount.Keep | src/main.rs:22 | the filter keeps only alphanumeric characters of the token, and yields the empty string exactly when the token has none |
| WordCount.Map | src/main.rs:18-33 | the loop of `map` emits, in token order, `(word, "1")` for every token that keeps an alphanumeric character |
| WordCount.EmittedAppend | src/main.rs:21-30 | tokens are handled one by one, in order: emission distributes over concatenation |
| WordCount.EmittedOne | src/main.rs:22-29 | one token yields exactly one pair, keyed by its alphanumeric characters, or none when it has no alphanumeric character |
| WordCount.EmittedAtMost | src/main.rs:21-30 | at most one pair per token |
| WordCount.EmittedPairs | src/main.rs:22-28 | every key is a non-empty alphanumeric string taken from one of the tokens, and every value is "1" |
| WordCount.EmittedClean | src/main.rs:21-28 | keys and values are non-empty and free of whitespace |
| WordCount.WordPairsReadBack | src/main.rs:18-33 | what `do_map` writes for this map function reads back as exactly the emitted pairs |
| WordCount.SumFails | src/main.rs:36 | `reduce` panics exactly when some value does not parse as a number |
| WordCount.SumRendered | src/main.rs:36-38 | on values that are rendered numbers, `reduce` renders their total |
| WordCount.ReduceOnes | src/main.rs:35-39 | on `n` copies of "1" `reduce` returns the decimal rendering of `n`, and "0" on no values |
| WordCountRun.WordCountFits | src/main.rs:18-39 | the word-count `map` emits only pairs of tokens and `reduce` only returns tokens, so both fit the record format |
| WordCountRun.AllOnes | src/main.rs:25-28 | every value the word-count map jobs emit is "1" |
| WordCountRun.ValuesForOnes | src/main.rs:35-38 | a word's values are as many "1"s as it has occurrences |
| WordCount.EmittedKeys | src/main.rs:21-29 | the keys `map` emits are exactly the non-empty alphanumeric remnants of the tokens |
| WordCountRun.EmittedCounts | src/main.rs:21-29 | a word's values are one per token whose alphanumeric characters spell that word |
| WordCountRun.AllPairsWords | src/main.rs:18-33 | on texts no token straddles, the map jobs together emit the word pairs of the texts put together, in order |
| WordCountRun.WordCountOverChunks | src/main.rs:18-39 | a finished word-count run writes every word emitted on the chunks once, in increasing order, with the decimal number of times it was emitted |
| WordCountRun.WordCountResult | src/main.rs:18-39 | a finished word-count run writes exactly the words of the lines `split` hands on, which are the file without a tail of whole lines, once each, in increasing order, each with the decimal number of tokens that spell it |
| Decimal.ParseRender | src/main.rs:36-38 | parsing the decimal rendering of a number gives back the number |
| Decimal.RenderInjective | src/main.rs:38 | distinct counts render as distinct strings |

## Left out

- Console output (`println!`) is not modelled: it does not change any file.
- Buffering is not modelled: a `BufWriter`'s contents are written when it is flushed or dropped, and the model writes them at once.
- The byte counts returned by `write` are not modelled. The source ignores them and assumes a whole write; a short write is not modelled.
- `File::create` failing is not modelled, and neither are I/O errors from `read_line`, `read_to_string` or `lines()`. A file that cannot be read as UTF-8 is not modelled either; file contents are `string`s.
- SipHash is not modelled: `hash` is a parameter `string -> nat`, and every property holds for every hash function.
- `char::is_alphanumeric` is the parameter `alnum`; no property depends on its table.
- `usize` overflow is not modelled. Sizes, offsets and `nchunk * m` are unbounded integers, and `parse::<usize>` accepts numbers of any size. The word-count `reduce` therefore never overflows in the model.
- Decimal.Parse: accepts an optional leading `+` and digits only, like `parse::<usize>`. It does not model the rejection of values above `usize::MAX`.
- A panicking map function is not modelled: the map function is a total `string -> seq<KeyValue>`, while the reduce function may panic (`ReducerPanic`). The word-count `map` cannot panic.
- The command-line `main` of src/main.rs is not modelled: it parses arguments and calls `run_single(5, 3, ..)`.
- A `split` that never returns is the outcome `Hangs` together with the store as the loop leaves it. The method stops at the first iteration that would repeat for ever instead of looping.
- RunFacts.RunSingleResult: stated only for map functions that emit pairs of tokens and reduce functions that return tokens, as RunFacts.NoOverwrite is. With other functions a key or value containing whitespace or a newline is split differently when read back, and `merge` can then overwrite keys. The source allows such functions; the model runs them, but proves nothing end to end about them.
- RunFacts.ReduceAllWrites: states that a finished reduce loop has run every job successfully, but not the converse, that the loop finishes whenever every job reads its files and no reduction panics.
- Concurrency is not modelled: the source is sequential.
