# Paraglob in Dafny

Paraglob answers the question "which of many glob patterns match this
string?" quickly. For each pattern it extracts the literal pieces, the
*meta words*, and files the pattern under each of them. An Aho-Corasick
automaton then finds which meta words occur in a query. Only the patterns
filed under those words are checked with `fnmatch`. Patterns with no meta
word (such as `*`, `?` or `[abc]`) are kept in a separate wildcard-only list.

This project is a functional model of that core, written for Dafny 4.11,
with proofs about it. It covers several snapshots of the code:

- the current C++ library: `src/paraglob.cpp` and the `ParaglobNode` class;
- the first C++ version: `paraglob.cpp` and `paraglobNode.cpp` at the
  repository root;
- the C prototype `paraglob.c`;
- the binary pattern-list serializer `src/paraglob_serializer.cpp`;
- the text pattern-list serializer `src/string_vector_serializer.cpp`.

Modules, one per file:

- `Outcomes` (`outcomes.dfy`): `Option`, the `Result` type, and one `Error`
  type that stands for the library's exception classes.
- `Bytes` (`bytes.dfy`): byte and 64-bit word types.
- `Seqs` (`seqs.dfy`): generic sequence facts (membership, counting,
  substring occurrence, flattening, interleaving).
- `Fragments` (`fragments.dfy`): the maximal runs of a sequence between
  separators. This is the common meaning of the word loops of
  `get_meta_words` and of `_computeWords`.
- `GlobSplit` (`glob_split.dfy`): `split_on_brackets` and `get_meta_words`.
  The current and the first version have the same text, so one model
  covers both.
- `StringOrder` (`string_order.dfy`): the order `<` of `std::string`, and
  `std::sort` followed by `unique`.
- `Scanner` (`scanner.dfy`): the automaton, reduced to the contract the
  index relies on.
- `ParaglobNode` (`node.dfy`): one meta word and its patterns. Four copies
  of the class exist: `src/paraglob_node.h`, `include/paraglob/node.h`,
  `src/paraglobNode.h` and `paraglobNode.cpp`. They agree on the
  constructor, `get_meta_word`, `operator==` and `add_pattern`, so the model
  cites the first for those.
- `Paraglob` (`paraglob.dfy`): the index of the current library, its
  invariant, `add`, `compile`, `get` and the list constructor.
- `LegacyParaglob` (`legacy_paraglob.dfy`): the first version's `add`, `get`
  and list constructor, over the same index.
- `CParaglob` (`c_paraglob.dfy`): the C prototype's registry of patterns and
  words.
- `BinarySerializer` (`binary_serializer.dfy`): `serialize`, `unserialize`,
  `add_int` and `get_int_and_move`.
- `TextSerializer` (`text_serializer.dfy`): `serialize_string_vec` and
  `unserialize_string_vec`.

`fnmatch` is a parameter of type `(string, string) -> bool` that nothing is
assumed about. `fnmatch` follows the pattern notation of POSIX.1-2017,
Shell Command Language, section 2.13. The automaton's search result is a
parameter too: a list of ids, constrained by `Scanner.IsReport` where a
lemma needs a genuine scan.

A Dafny `string` models a `std::string` byte by byte: each `char` stands
for one byte (0 to 255). A multi-byte character, such as `é` in UTF-8, is
several chars, so every length in the model is a byte count, as in the
source: the lengths the text serializer writes, the payload cuts of
`substr`/`erase`, and the automaton's pattern-length limit. The C prototype
and the binary serializer use byte sequences directly.

## Model

| member | source | states |
|---|---|---|
| GlobSplit.FirstRegionFound | src/paraglob.cpp:57-58 | the region found starts at a `[` with no `[` before it and ends at the first `]` after that `[` |
| GlobSplit.FirstRegionNotFound | src/paraglob.cpp:57-64 | when the search finds no region, no `]` follows the first `[`, so the string holds no closed bracket region |
| GlobSplit.SplitOnBrackets | src/paraglob.cpp:52-71 | there is always at least one piece; a string without `[` comes back as the single piece `[in]` |
| GlobSplit.SplitOnBracketsDecomposes | src/paraglob.cpp:57-69 | the pieces interleaved with the dropped regions give back the input; each region runs from a `[` to the first `]` after it; every piece before a region is free of `[`; the last piece holds no closed region |
| GlobSplit.SplitOnBracketsUnique | src/paraglob.cpp:57-69 | that cut is the only one with these properties, so it describes `split_on_brackets` completely |
| GlobSplit.SplitDropsRegion | src/paraglob.cpp:59-61 | a closed region is dropped together with any wildcards in it: `x[z]y` splits into `x` and then the pieces of `y`, and its meta words are the runs of `x` followed by the meta words of `y` |
| GlobSplit.OnlyRegionHasNoWords | src/paraglob.cpp:57-69 | a pattern that is a single closed region, such as `[abc]`, splits into `""` and `""` and has no meta words |
| GlobSplit.SplitUnterminated | src/paraglob.cpp:62-69 | an unterminated `[` is plain text: the whole string is one piece, and its meta words are its wildcard-free runs |
| GlobSplit.PieceWordsAreRuns | src/paraglob.cpp:82-90 | the `find_first_of("*?")` loop over one piece yields exactly the maximal non-empty runs free of `*` and `?` |
| GlobSplit.MetaWords | src/paraglob.cpp:74-92 | every meta word is non-empty and holds neither `*` nor `?`; without `[` the meta words are the wildcard-free runs of the pattern |
| GlobSplit.MetaWordsInOrder | src/paraglob.cpp:78-91 | the meta words are contiguous substrings of the pattern, taken left to right without overlap |
| GlobSplit.MetaWordsAreRunsOfPieces | src/paraglob.cpp:78-91 | the meta words are the wildcard-free runs of each bracket piece, piece after piece |
| GlobSplit.ExampleBackslash | src/paraglob.cpp:82-89 | a backslash escapes nothing: `a\*b` gives `a\` and `b` |
| GlobSplit.ExampleEmptyStretches | src/paraglob.cpp:83-89 | empty stretches between wildcards are discarded: `**ab??c*` gives `ab` and `c` |
| Fragments.RunsDecompose | src/paraglob.cpp:82-90 | a string is its separator gaps interleaved with its runs; the runs are non-empty and separator-free, and only the outer gaps may be empty |
| Fragments.RunsUnique | src/paraglob.cpp:82-90 | any such cut into gaps and runs has exactly the maximal runs as its runs |
| Fragments.RunsAtSeparator | paraglob.c:48-63 | cutting at the first separator gives the run before it (when non-empty), then the runs after it |
| StringOrder.LessIrreflexive | src/paraglob.cpp:47 | no string is below itself under `std::string` `<` |
| StringOrder.LessAsymmetric | src/paraglob.cpp:47 | `a < b` excludes `b < a` |
| StringOrder.LessTransitive | src/paraglob.cpp:47 | `<` is transitive |
| StringOrder.LessTotal | src/paraglob.cpp:47 | any two different strings are ordered one way or the other |
| StringOrder.SortUnique | src/paraglob.cpp:47-48 | sort then unique leaves a strictly increasing list with exactly the members of the input |
| StringOrder.StrictlySortedUnique | src/paraglob.cpp:47-48 | two strictly increasing lists with the same members are equal, so the result of sort then unique is fixed by its members |
| StringOrder.StrictlySortedDistinct | src/paraglob.cpp:48 | a strictly increasing list holds no element twice |
| Scanner.AddPattern | src/ahocorasick/AhoCorasickPlus.cpp:41-77 | the status is AUTOMATA_CLOSED exactly when the automaton is finalized; DUPLICATE exactly when it is open, the word has an allowed length and the word was added before; SUCCESS exactly when it is open, the length is allowed and the word is new. Only SUCCESS adds the entry; modes never change |
| Scanner.Finalize | src/ahocorasick/AhoCorasickPlus.cpp:79-81 | the automaton is closed and keeps its words |
| Scanner.FindAll | src/ahocorasick/AhoCorasickPlus.cpp:90-108 | a scan result exists: every id reported names a word occurring in the text, and every added word occurring in the text has its id reported |
| ParaglobNode.NewNode | src/paraglob_node.h:17-18 | a new node holds its meta word and exactly one pattern, the initial one |
| ParaglobNode.SameIsMetaWordEquality | src/paraglob_node.h:25-27 | two nodes are equal exactly when their meta words are, whatever their pattern lists |
| ParaglobNode.AddPattern | src/paraglob_node.h:29-31 | the pattern is appended at the end, with no deduplication; earlier patterns and the meta word are unchanged |
| ParaglobNode.Keep | src/paraglob_node.h:37-41 | the filter keeps a pattern exactly when it passes `fnmatch`, with its multiplicity |
| ParaglobNode.KeepAppend | src/paraglob_node.h:34-42 | filtering distributes over concatenation, so the order of the patterns is preserved |
| ParaglobNode.CopyIf | src/paraglob_node.h:37-41 | `copy_if` into a back inserter leaves the target as a prefix and appends exactly the filtered patterns |
| ParaglobNode.MergeMatches | src/paraglob_node.h:34-42 | `merge_matches` appends exactly the node's patterns that pass `fnmatch`, in node order; the existing target is unchanged |
| ParaglobNode.MergePatterns | src/paraglob_node.h:45-47 | `merge_patterns` puts all the node's patterns in front of the target's existing contents |
| ParaglobNode.MergeInto | paraglobNode.cpp:20-22 | `merge_into` appends all the node's patterns, in order, after the existing contents |
| ParaglobNode.MergeOrderIrrelevant | paraglobNode.cpp:20-22 | inserting in front and appending hand out the same patterns with the same multiplicities; filtering after `merge_into` equals `merge_matches` on the filtered target |
| Paraglob.Empty | src/paraglob.h:32 | a fresh index is valid and open, with no buckets and no wildcard-only patterns |
| Paraglob.ContainsIsMetaWord | src/paraglob.cpp:22-23 | under the invariant, the automaton knows a word exactly when the map has a node for it, so `.at` after DUPLICATE never fails |
| Paraglob.Emplace | src/paraglob.cpp:21 | `emplace` adds the key and keeps every existing entry; the new value is stored only when the key was absent |
| Paraglob.NewWordKeepsValid | src/paraglob.cpp:19-21 | registering a new word under the next id keeps the invariant: no duplicate meta words, id `i` names `meta_words[i]`, the map keys equal the meta words, and each node is filed under its own word |
| Paraglob.AddWord | src/paraglob.cpp:16-26 | one loop turn fails exactly when the automaton is closed or the word is empty or too long; otherwise the invariant holds afterwards |
| Paraglob.AddWordKeeps | src/paraglob.cpp:19-23 | one loop turn keeps the automaton's mode and the wildcard-only list, and appends the word to the meta words only when it is new |
| Paraglob.AddWordNode | src/paraglob.cpp:16-23 | a new word gets id `meta_words.size()` and a fresh node holding just the pattern; a known word's node gains the pattern at the end; other nodes are untouched |
| Paraglob.AddWordBucket | src/paraglob.cpp:19-23 | one loop turn appends the pattern to the bucket of its word and to no other bucket |
| Paraglob.Accepted | src/paraglob.cpp:15-26 | counts the leading words the automaton takes: all are taken while it is open and each has an allowed length; the next one would fail |
| Paraglob.AddWordsKeeps | src/paraglob.cpp:15-29 | the loop returns true exactly when every meta word is taken; it leaves the automaton's mode and the wildcard-only list alone |
| Paraglob.AddWordsBucket | src/paraglob.cpp:15-27 | the words taken before the first failure are kept, with no roll-back; the pattern lands in each word's bucket once per occurrence; later words are not registered |
| Paraglob.Add | src/paraglob.cpp:12-30 | `add` keeps the index invariant |
| Paraglob.AddEffect | src/paraglob.cpp:12-30 | `add` returns false exactly when some meta word is refused; the pattern joins the wildcard-only list exactly when it has no meta words and is not empty; each accepted word's bucket gains the pattern once per occurrence (`a*a` lands twice in `a`) |
| Paraglob.Compile | src/paraglob.cpp:32-34 | `compile` closes the automaton and changes nothing else |
| Paraglob.AddAfterCompile | src/paraglob.cpp:24-34 | after `compile`, `add` succeeds exactly for patterns without meta words (wildcard-only ones included) and changes no bucket |
| Paraglob.AddAll | src/paraglob.cpp:6-8 | the constructor's loop keeps the invariant |
| Paraglob.FromList | src/paraglob.cpp:5-10 | the list constructor yields a valid, compiled index |
| Paraglob.Collect | src/paraglob.cpp:39-40 | the id loop fails exactly when some id is out of range for `meta_words`; otherwise it gathers exactly the patterns that pass `fnmatch` and are filed under a reported word |
| Paraglob.Get | src/paraglob.cpp:36-50 | `get` fails exactly on an out-of-range id; its result is strictly sorted, and a pattern is in it exactly when it is wildcard-only (with no `fnmatch` check) or it passes `fnmatch` and is filed under a reported meta word |
| Paraglob.ReportIdsInRange | src/paraglob.cpp:39-40 | a genuine scan only reports ids of existing meta words |
| Paraglob.ReportedWordOccurs | src/paraglob.cpp:39-40 | a reported id names a meta word that has a node and occurs in the text |
| Paraglob.OccurringWordReported | src/paraglob.cpp:39 | a meta word occurring in the text has its id reported |
| Paraglob.GetWithReport | src/paraglob.cpp:36-50 | with a genuine scan, `get` does not fail; a pattern is returned exactly when it is wildcard-only, or it passes `fnmatch` and is filed under a meta word occurring in the text |
| Paraglob.AddFitting | src/paraglob.cpp:12-30 | while the automaton is open and every meta word fits, `add` returns true, keeps the automaton open and lists the pattern as wildcard-only exactly when it is |
| Paraglob.AddFittingBucket | src/paraglob.cpp:15-27 | while the automaton is open and the words fit, the pattern lands in the bucket of each of its meta words, once per occurrence |
| Paraglob.ExpectedBucketMembers | src/paraglob.cpp:15-23 | the expected bucket of a word holds a pattern exactly when the pattern is listed and has the word among its meta words |
| Paraglob.WildcardOnlyMembers | src/paraglob.cpp:93-95 | the expected wildcard-only list holds a pattern exactly when it is listed, non-empty and has no meta words |
| Paraglob.AddAllEffect | src/paraglob.cpp:5-8 | when the words fit, the constructor's loop keeps the automaton open and lists exactly the wildcard-only patterns, in order |
| Paraglob.AddAllBucket | src/paraglob.cpp:5-8 | when the words fit, each bucket after the loop is its expected bucket: every pattern, in order, once per occurrence of the word |
| Paraglob.FromListGet | src/paraglob.cpp:5-50 | for an index built from a list whose words fit, `get` with a genuine scan returns exactly the listed patterns that are wildcard-only, or that pass `fnmatch` and have a meta word occurring in the text |
| Paraglob.FromListOccurring | src/paraglob.cpp:15-40 | a pattern is filed under a meta word occurring in the text exactly when it is listed and one of its own meta words occurs there |
| LegacyParaglob.AddWordsSkipping | paraglob.cpp:17-33 | the skipping loop keeps the index invariant |
| LegacyParaglob.AcceptedWordsCount | paraglob.cpp:21-31 | the words the automaton takes are exactly the occurrences of words with an allowed length, while it is open |
| LegacyParaglob.AddWordsSkippingKeeps | paraglob.cpp:17-33 | the skipping loop keeps the automaton's mode and the wildcard-only list |
| LegacyParaglob.AddWordsSkippingBucket | paraglob.cpp:17-33 | a refused word is skipped and the loop goes on: the pattern lands in the bucket of every accepted word, once per occurrence |
| LegacyParaglob.Add | paraglob.cpp:10-34 | `add` keeps the index invariant |
| LegacyParaglob.AddListsWildcardOnly | paraglob.cpp:14-16 | a non-empty pattern without meta words is listed twice (once by `get_meta_words`, once by `add`); the empty pattern once; any other pattern not at all |
| LegacyParaglob.AddFilesPattern | paraglob.cpp:17-33 | each bucket gains the pattern once per occurrence of the word when the word is accepted, even if other words were refused |
| LegacyParaglob.AddAll | paraglob.cpp:4-6 | the constructor's loop keeps the invariant |
| LegacyParaglob.AddAllWildcards | paraglob.cpp:4-6 | after the loop, a pattern is listed as wildcard-only exactly when it was already listed, or it is in the input and has no meta words |
| LegacyParaglob.FromList | paraglob.cpp:3-16 | the list constructor yields a valid, compiled index whose wildcard-only list holds exactly the listed patterns without meta words, the empty pattern included |
| LegacyParaglob.MetaMatches | paraglob.cpp:43-47 | the id loop fails exactly on an out-of-range id; otherwise it maps each id to its meta word, in order |
| LegacyParaglob.MergeAll | paraglob.cpp:51-53 | the merge loop gathers every pattern of the matched words' buckets, unfiltered, and keeps the patterns gathered so far as an unchanged prefix |
| LegacyParaglob.Get | paraglob.cpp:40-69 | `get` fails exactly on an out-of-range id; its result is strictly sorted; a pattern is in it exactly when it passes `fnmatch` and is wildcard-only or filed under a reported word |
| LegacyParaglob.GetFiltersCurrent | paraglob.cpp:54-62 | the first version fails exactly when the current one does, and returns exactly the current result's patterns that pass `fnmatch`; the two differ only in checking wildcard-only patterns |
| LegacyParaglob.GetDistinct | paraglob.cpp:66-67 | no pattern is returned twice, even one listed twice as wildcard-only |
| CParaglob.Create | paraglob.c:79-91 | a new registry holds no patterns and no words, so it meets the registry invariant |
| CParaglob.RunsFrom | paraglob.c:46-63 | where the scan stops, the runs from `s` on are the stretch `s..t` (when non-empty) followed by the runs after `t` |
| CParaglob.ComputeWords | paraglob.c:37-67 | `_computeWords` yields exactly the maximal non-empty runs of bytes between `*`s |
| CParaglob.ScanStep | paraglob.c:53-63 | at a word boundary, the stretch `s..t` moves from the unscanned rest to the words found, so the loop invariant is kept |
| CParaglob.WordsOfPlain | paraglob.c:48 | a pattern without `*` is one word, even with `?`, `[` or `\` in it; the empty pattern has none |
| CParaglob.WordsOfStars | paraglob.c:48-60 | a pattern made only of `*`s has no words |
| CParaglob.Insert | paraglob.c:106-128 | `paraglob_insert` appends one record with the input bytes, length, cookie and words, leaving earlier records unchanged; the global word set grows by exactly those words, so it only grows and holds every new word; the result is nonzero; it keeps the registry invariant: every record holds its own bytes' length and words, and the global set is exactly the sum of all records' words |
| CParaglob.RecordWordsRegistered | paraglob.c:118-126 | under the registry invariant, each word of each record is in the global word set |
| BinarySerializer.FromLEOfLE | src/paraglob_serializer.cpp:54-58 | reading back the eight little-endian bytes of a number that fits gives the number |
| BinarySerializer.LEOfFromLE | src/paraglob_serializer.cpp:54-58 | every byte string is the little-endian encoding of a number that fits |
| BinarySerializer.AddInt | src/paraglob_serializer.cpp:54-58 | `add_int` writes eight bytes that read back, little-endian, as the number |
| BinarySerializer.Records | src/paraglob_serializer.cpp:10-15 | the records take 8 bytes plus the pattern's length each |
| BinarySerializer.Serialize | src/paraglob_serializer.cpp:5-18 | the output has `8 + Σ (8 + len)` bytes; bytes 0..7 hold the count, and the records follow in order |
| BinarySerializer.GetIntAndMove | src/paraglob_serializer.cpp:60-65 | the iterator always moves on by exactly eight bytes; the code as written yields the low byte of the little-endian word (`FromLE % 256`, so below 256), the corrected reader the whole word |
| BinarySerializer.ReadRecords | src/paraglob_serializer.cpp:35-44 | a record whose length word or pattern bytes run past the end is an underflow error, and that is the only error; otherwise the records read fill the rest of the data exactly |
| BinarySerializer.Unserialize | src/paraglob_serializer.cpp:21-52 | input shorter than the count word is an underflow, and so is a record running past the end; more records than the count is an overflow and fewer an underflow; on success the number of records equals the count read and they fill the data exactly |
| BinarySerializer.GetIntOfAddInt | src/paraglob_serializer.cpp:54-65 | what `add_int` wrote is read back in full by a little-endian reader, and by the code as written only when it is below 256 |
| BinarySerializer.FirstRecord | src/paraglob_serializer.cpp:10-15 | a run of records starts with a length word and that many pattern bytes, followed by the other records |
| BinarySerializer.ReadsRecords | src/paraglob_serializer.cpp:35-39 | the record loop reads back the records it is given, when the reader can read their lengths |
| BinarySerializer.RoundTrip | src/paraglob_serializer.cpp:5-52 | `unserialize(serialize(v)) == v` for the code as written when the count and every length are below 256 |
| BinarySerializer.RoundTripCorrected | src/paraglob_serializer.cpp:5-52 | with every integer read in full, `unserialize(serialize(v)) == v` for every list the format can express |
| BinarySerializer.ReadRecordsExact | src/paraglob_serializer.cpp:35-44 | with lengths read in full, every run of records the loop accepts is exactly the encoding of what it returns |
| BinarySerializer.UnserializeCorrectedExact | src/paraglob_serializer.cpp:21-52 | the corrected reader accepts only data that `serialize` writes, and re-serializing its result gives the data back |
| BinarySerializer.EmptyList | src/paraglob_serializer.cpp:8 | `serialize([])` is eight zero bytes, which read back as `[]` |
| BinarySerializer.LongPatternLayout | src/paraglob_serializer.cpp:8-15 | for one 256-byte pattern the output has 272 bytes: count byte 1, length low byte 0, and the pattern from byte 16 on |
| BinarySerializer.LongPatternMisread | src/paraglob_serializer.cpp:60-65 | the code as written rejects a valid list of one 256-byte pattern starting with byte 248 with an overflow error |
| BinarySerializer.MisreadRecords | src/paraglob_serializer.cpp:43-46 | any 272-byte input with count byte 1, length byte 0 and byte 248 at offset 16 reads as two records, which is an overflow |
| TextSerializer.ToDecimal | src/string_vector_serializer.cpp:15 | `to_string` of a length is a non-empty string of decimal digits |
| TextSerializer.DigitsOfDecimal | src/string_vector_serializer.cpp:15-42 | reading the digits back gives the length |
| TextSerializer.Stoi | src/string_vector_serializer.cpp:42 | `stoi` reads the digit value when it is at most `INT_MAX`; no leading digit is `invalid_argument`; leading digits worth more than `INT_MAX` are `out_of_range`; the only errors are these two |
| TextSerializer.EmptyList | src/string_vector_serializer.cpp:9-28 | `serialize_string_vec([])` is exactly the delimiter, which reads back as `[]` |
| TextSerializer.Header | src/string_vector_serializer.cpp:14-17 | the header holds only digits and commas, and is non-empty when the list is |
| TextSerializer.Serialize | src/string_vector_serializer.cpp:9-20 | the output is the header, then the delimiter `~~~~~/////~~~~~`, then the strings concatenated |
| TextSerializer.Find | src/string_vector_serializer.cpp:30 | `find` returns the first occurrence at or after the start, or none when there is none |
| TextSerializer.FindIs | src/string_vector_serializer.cpp:30 | an occurrence with none before it is the one `find` returns |
| TextSerializer.ParseHeader | src/string_vector_serializer.cpp:40-44 | the header loop only fails with `invalid_argument` or `out_of_range` |
| TextSerializer.Split | src/string_vector_serializer.cpp:46-49 | one string per length, none longer than its length |
| TextSerializer.Unserialize | src/string_vector_serializer.cpp:22-51 | input without the delimiter is `invalid_argument`; the delimiter alone is `[]`; the only errors are `invalid_argument` and `out_of_range` |
| TextSerializer.DelimiterAfterHeader | src/string_vector_serializer.cpp:30 | the first delimiter in a serialized list is the one `serialize` wrote, because the header holds only digits and commas |
| TextSerializer.HeaderRoundTrip | src/string_vector_serializer.cpp:40-44 | the header loop reads back every length written, when each fits in an `int` |
| TextSerializer.SplitRoundTrip | src/string_vector_serializer.cpp:46-49 | the payload loop cuts the concatenation back into the strings |
| TextSerializer.RoundTrip | src/string_vector_serializer.cpp:9-51 | `unserialize_string_vec(serialize_string_vec(v)) == v` for every list whose lengths fit in an `int` |
| TextSerializer.HeaderCountsCommas | src/string_vector_serializer.cpp:40-44 | a header that parses yields one number per comma |
| TextSerializer.HeaderTailIgnored | src/string_vector_serializer.cpp:40-44 | text after the header's last comma is ignored |
| TextSerializer.SplitIsPrefix | src/string_vector_serializer.cpp:46-49 | the strings read are the payload cut in order: a short payload gives shorter strings without error, and surplus payload is ignored |

## Left out

- The Aho-Corasick automaton's internals (the `ac_trie` C library is not part of this model). `Scanner` keeps only what the index relies on. Its `maxLength` stands for the library's maximum pattern length. The order of its checks is assumed to be: closed, empty, too long, duplicate.
- `fnmatch` itself is a libc primitive. It is an uninterpreted parameter, and nothing is proved about its soundness or completeness.
- The command-line drivers and the benchmark (`driver.c`, `tools/`): I/O, random input and timing.
- Debug output: `_safe_print` and `paraglob_dump_debug` in `paraglob.c`, and the "Failed to add" line the first version prints. All of it is printing only.
- `paraglob_compile` and `paraglob_match` in `paraglob.c`: stubs that return constants.
- Memory management. This covers allocation failure, where `paraglob_create` and `paraglob_insert` return 0, and freeing. It also covers the one-byte over-read in the loop test of `_computeWords`, which does not change the words found.
- Header declarations that disagree with the implementations (the arity of `paraglob_create`, `int`/`char` in the serializer header, `std::set` in `paraglobNode.h`). The implementations are modelled.
- The exception classes, folded into `Outcomes.Error`.
- The thread safety of `get`: the automaton's shared text cursor is a concurrency matter.
- The serialized-data constructor of `Paraglob` and its `serialize`. They combine the serializers with `add`, and each of those is modelled.
- `TextSerializer.Stoi`: leading whitespace and signs are not modelled. The header is plain decimal digits, and a sign reads as `invalid_argument`.
- The `int` conversion of scanner ids in `get`. Ids are modelled as naturals.
- `BinarySerializer.Serialize`: the host byte order is assumed little-endian.
- Characters outside 0 to 255 in a `string`: they stand for no byte of a `std::string`, and the model does not exclude them. Text is to be read one byte per char.
- `CParaglob.Insert`: the word sets of `paraglob.c` are multisets, because `set.h` is not part of this model and its elements are compared by pointer, so two equal words are two elements.
- `LegacyParaglob.MetaMatches`: the `findNext` iteration of the first version is modelled as the list of ids it yields.
- `BinarySerializer.ReadRecords`: the iterator walked out of range (undefined behaviour in the source) is modelled as the `underflow_error` the source then throws.

## Findings

| source | as written | input that shows it | evidently intended | confidence | as-written member | corrected member |
|---|---|---|---|---|---|---|
| src/paraglob_serializer.cpp:60-65 | `get_int_and_move` reads only the first byte of each 8-byte integer | a list of one 256-byte pattern whose first byte is 248: its length reads as 0 and its first byte as the length of a second record, which `unserialize` rejects with `overflow_error` | read all eight bytes little-endian, as `add_int` wrote them, so every list round-trips | not executed | BinarySerializer.LongPatternMisread | BinarySerializer.RoundTripCorrected |
