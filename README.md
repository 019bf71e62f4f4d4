# esapp in Dafny

A model of esapp, an unsupervised word segmenter for Chinese and other unsegmented text.
esapp needs no dictionary. It encodes a corpus of raw strings as one integer sequence with a
boundary symbol 0 after every string. It builds a suffix array with SA-IS, its inverse and
a boundary-free LCP array over that sequence. One stack sweep over the LCP intervals fills a
frequency trie with, for every repeated substring up to a maximum length, its occurrence
count and its left and right boundary statistics, and per-length averages. A dynamic
programme then picks the best segmentation of every string. After each pass the counts are
moved to the current segmentation (its words are "preserved"), and the passes repeat until
the segmentation stops changing or an iteration limit is reached.

The model covers:

- the encoded multistring and its id maps;
- the suffix array: the SA-IS building blocks, the inverse and Kasai LCP arrays, and the
  sentinel variant's binary searches;
- the occurrence statistics of `count.cpp` and the preserve bookkeeping;
- the four frequency tries, the trie with its iterator, and the `string_counter` sweep and
  score;
- the segmenter's dynamic programme and EM loop, the recursive segmenter of `seg.cpp` and
  the `with_segments` policy;
- UTF-8 decoding and the five tokenizers.

Mutable objects of the source are Dafny classes with `modifies` frames. Loops are methods
with invariants, proved against specification functions. The floating-point formulas
(entropies, scores, powers and logarithms) are parameters. A score is either minus
infinity or a finite real.

## Model

| member | source | states |
|---|---|---|
| Averages.FirstZero | src/count.cpp:308-310 | the first length whose string count is zero, or the table size when there is none; every count below it is positive |
| Averages.DividedBelow | src/count.cpp:308-315 | the totals with exactly the entries below m divided by their counts, the rest unchanged |
| Averages.Average | src/string_counter.cpp:207-215 | the averaging loop divides the three totals of every length below the first zero count by that count and leaves the rest as they were (`break`) |
| Lex.Lcp0 | src/suffix_array.cpp:226-229 | the length of the common prefix of two suffixes that stops at the boundary id 0, bounded by both lengths |
| Lex.Lcp | src/sufarr.cpp:137-145 | the plain common prefix length of a pattern and a suffix, bounded by both lengths |
| Lex.LessTotal | src/suffix_array.cpp:88-206 | the suffix order used for sorting is total: two different sequences are ordered one way or the other |
| Lex.LessTransitive | src/suffix_array.cpp:88-206 | the suffix order is transitive |
| Lex.LessAsymmetric | src/suffix_array.cpp:88-206 | the suffix order is asymmetric |
| Lex.LessIrreflexive | src/suffix_array.cpp:88-206 | no sequence is smaller than itself |
| Lex.LessHead | src/sufarr.cpp:62-75 | along the order the first symbol never decreases, which the binary searches rely on |
| Lex.PrefixNotGreater | src/sufarr.cpp:77-105 | a prefix of a suffix is never greater than that suffix, so a pattern sorts at or before every suffix it starts |
| Lex.Lcp0Spec | src/suffix_array.cpp:228-229 | the first `Lcp0(a, b)` symbols agree and are non-zero, and the scan stops at an end, a mismatch or a boundary |
| Lex.Lcp0Exact | src/suffix_array.cpp:228-229 | any length with those properties is `Lcp0` |
| Lex.Lcp0Symmetric | src/suffix_array.cpp:228-229 | `Lcp0` does not depend on the order of its arguments |
| Lex.LcpSpec | src/sufarr.cpp:141-142 | the first `Lcp(a, b)` symbols agree and the next pair differs or one side ends |
| Lex.LcpExact | src/sufarr.cpp:141-142 | any length with those properties is `Lcp` |
| Lex.LcpPrefix | src/sufarr.cpp:69 | a pattern is a prefix of a suffix exactly when their common prefix covers the pattern (`mlcp == len_t`) |
| Lex.LessAtMismatch | src/sufarr.cpp:70 | past a common prefix, the first differing symbol decides the order |
| Lex.Lcp0Shift | src/suffix_array.cpp:227 | Kasai's step: dropping the shared first symbol keeps the order and shortens the boundary-free common prefix by one (`lcp--`) |
| Lex.Lcp0Sandwich | src/suffix_array.cpp:222-233 | a suffix between two others shares at least their common prefix with the larger one |
| IdMaps.Encode | src/encstr.cpp:37-46 | the ids written for a string: one per character, each the id the map gives it when it is read |
| IdMaps.ExtendCovers | src/encstr.cpp:40-43 | after numbering, every character of the string is mapped and nothing else is added |
| IdMaps.ExtendKeeps | src/encstr.cpp:40 | characters already mapped keep their ids |
| IdMaps.ExtendGrows | src/encoded_multistring.cpp:25-34 | numbering more characters never drops a mapped one |
| IdMaps.ExtendWellNumbered | src/encoded_multistring.cpp:25-31 | numbering keeps the ids distinct and dense below the map size |
| IdMaps.EncodeAt | src/encoded_multistring.cpp:33 | each position of the encoding holds the final id of its character |
| IdMaps.FirstSeenOrder | src/encstr.cpp:37-43 | unseen characters get `|m|, |m|+1, ...` in the order of their first occurrence |
| IdMaps.NewIdsAbove | src/encstr.cpp:37-43 | a character unmapped at the start receives an id of at least `|m|` |
| EncStr.InitialMap | src/encstr.cpp:20-24 | a fresh map holds only character 0, mapped to the boundary id, and is well numbered |
| EncStr.AssignAsWritten | src/encstr.cpp:37-43 | id assignment as written, with the 16-bit counter wrapping modulo 65536: afterwards exactly the old characters and those of the string are mapped, and the old ones keep their ids |
| EncStr.AssignAsWrittenWraps | src/encstr.cpp:37-43 | the id counter as written is 16 bits: with 65536 characters mapped, the next unseen character receives id 0, the boundary id already given to character 0 |
| EncStr.EncodedMultistring.constructor | src/encstr.cpp:20-24 | a fresh multi-string maps character 0 to the boundary id and holds no string |
| EncStr.EncodedMultistring.FromString | src/encstr.cpp:26-30 | constructing from a string is constructing empty and appending it |
| EncStr.EncodedMultistring.Append | src/encstr.cpp:32-49 | the start offset is recorded, unseen characters get the next ids in first-seen order, one boundary id follows; an append that would exhaust the 16-bit id space is refused and changes nothing |
| EncStr.AssignIds | src/encstr.cpp:37-46 | the id-assignment loop of `append` succeeds exactly when the 16-bit id space suffices, and then yields the map `Extend(m0, s)` and the buffer followed by `Encode(m0, s)` |
| EncStr.EncodedMultistring.Clear | include/encstr.hpp:129-135 | the buffer and offsets become empty and the map holds only the boundary entry |
| EncStr.EncodedMultistring.CharId | include/encstr.hpp:103-107 | the id of a mapped character (below the map size, the boundary id exactly for character 0); an unmapped one is an error, as `map::at` throws |
| EncStr.EncodedMultistring.Offset | include/encstr.hpp:109-112 | the start of string i lies inside the buffer |
| EncStr.EncodedMultistring.Size | include/encstr.hpp:114-117 | the buffer length, positive once a string was appended |
| EncStr.EncodedMultistring.AlphabetCount | include/encstr.hpp:119-122 | the number of mapped characters, between 1 (the boundary) and 65536 |
| EncStr.EncodedMultistring.StringCount | include/encstr.hpp:124-127 | the number of appended strings |
| EncStr.EncodedMultistring.Get | include/encstr.hpp:97-101 | reads an id of the buffer |
| EncStr.EncodedMultistring.Set | include/encstr.hpp:91-95 | writes one id of the buffer and changes nothing else |
| EncStr.NumberAll | src/encoded_multistring.cpp:25-34 | the id-assignment loop yields the map `Extend(m0, s)` and the ids `Encode(m0, s)` |
| EncStr.EndOffsetsKept | src/encoded_multistring.cpp:36-37 | end offsets stay valid when a boundary-terminated string is appended, and the new end offset is valid |
| EncStr.LenPushed | src/encoded_multistring.cpp:36-37 | the strings before a new end offset are unchanged, and the new string runs from the old buffer end to its boundary id |
| EncStr.EndOffsetMultistring.PushBack | src/encoded_multistring.cpp:23-38 | appends the string with first-seen ids and one boundary id, and records the buffer length after the boundary as its end offset |
| EncStr.EndOffsetMultistring.Start | src/suffix_array.hpp:136-139 | string i starts at the end offset of string i - 1, or at 0 |
| EncStr.EndOffsetMultistring.StringLength | src/suffix_array.hpp:136-139 | string i runs from its start up to the boundary id just before its end offset |
| SuffixSpec.SuffixesDiffer | src/suffix_array.cpp:88-206 | two different positions start different suffixes, so the sort has no ties |
| SuffixSpec.Distinct | src/suffix_array.cpp:88-206 | a suffix array never lists a position twice |
| SuffixSpec.RankOrder | src/suffix_array.cpp:88-206 | of two listed positions the smaller suffix has the smaller rank |
| SuffixSpec.InverseRoundTrip | src/suffix_array.cpp:208-215 | the inverse of a suffix array maps every position back to its own rank |
| SuffixSpec.Unique | src/suffix_array.cpp:88-206 | two arrays that both list the suffixes once each in strictly increasing order are equal |
| SuffixSpec.SortSuffixes | src/suffix_array.cpp:88-206 | the reference construction returns the suffix array: every position below m once, suffixes strictly increasing |
| SuffixSpec.InsertSorted | src/suffix_array.cpp:88-206 | inserting a suffix before the first listed suffix not smaller than it keeps the list strictly sorted and adds exactly that position |
| SuffixSpec.Resize | src/suffix_array.cpp:210 | `resize` keeps the first entries and pads with zeros |
| SuffixSpec.InvertSuffixArray | src/suffix_array.cpp:208-215 | `isa[sa[i]] = i` for every rank: the result is the inverse permutation, `sa[isa[p]] == p` |
| SuffixSpec.KasaiStep | src/suffix_array.cpp:224-227 | after suffix i met its predecessor with common prefix l, suffix i+1 shares at least l - 1 with its own predecessor, so `lcp--` is a safe start |
| SuffixSpec.ExtendCommonPrefix | src/suffix_array.cpp:228-229 | the inner scan from a known common prefix ends at the boundary-free common prefix `Lcp0` of the two suffixes |
| SuffixSpec.Record | src/suffix_array.cpp:231 | recording the entry of position i keeps the entries of earlier positions |
| SuffixSpec.DoneAll | src/suffix_array.cpp:217-234 | once every position is recorded, every rank r > 0 holds the boundary-free common prefix with rank r - 1 |
| SuffixSpec.KasaiLcp | src/suffix_array.cpp:217-234 | Kasai's loop yields the LCP array: entry r > 0 is `Lcp0` of the suffixes at ranks r and r - 1; entry 0 keeps its resized value |
| SuffixArrays.SuffixArray.constructor | src/suffix_array.hpp:44 | a default suffix array holds an empty text and empty arrays |
| SuffixArrays.SuffixArray.Build | src/suffix_array.cpp:21-31 | `construct()` leaves `sa` sorting every suffix of the text, `isa` its inverse and `lcpa` the boundary-free LCP array (the sort is the reference construction, see Left out) |
| SuffixArrays.SuffixArray.Construct | src/suffix_array.hpp:112-121 | every generated string is appended to the text in order, each with one boundary id, string lengths of earlier strings are kept and the new ones are those generated; then the arrays are rebuilt |
| SuffixArrays.SuffixArray.Clear | src/suffix_array.hpp:123-129 | the text and all three arrays become empty |
| SuffixArrays.SuffixArray.Size | src/suffix_array.hpp:131-134 | one suffix per text position |
| SuffixArrays.SuffixArray.Empty | src/suffix_array.hpp:141-144 | empty exactly when no string was added |
| SuffixArrays.SuffixArray.Rank | src/suffix_array.hpp:151-154 | the rank of position i: the rank whose suffix starts at i |
| SuffixArrays.SuffixArray.Lcp | src/suffix_array.hpp:156-159 | entry i > 0 is the boundary-free common prefix of the suffixes at ranks i and i - 1; entry 0 is 0 |
| SuffixArrays.SuffixArray.At | src/suffix_array.hpp:161-169 | the position at rank i, whose rank is i and whose suffix is smaller than the next rank's |
| SuffixArrays.SuffixArray.Term | src/suffix_array.hpp:146-149 | the id at text position i |
| SuffixArrays.SuffixArray.AlphabetCount | src/suffix_array.hpp:171-174 | the number of mapped characters, at least the boundary |
| SuffixArrays.SuffixArray.StringCount | src/suffix_array.hpp:176-179 | the number of strings in the text |
| SuffixArrays.SuffixArray.StringLength | src/suffix_array.hpp:136-139 | `size(i)`: string i runs from its start to its boundary id, and the next string starts right after it |
| SuffixArrays.PushAll | src/suffix_array.hpp:115-118 | the `push_back` loop appends the encodings of all generated strings in order, each with a boundary, numbering characters across strings |
| SuffixArrays.PushNext | src/suffix_array.hpp:117 | one round pushes string k onto a text that holds the first k strings |
| SuffixArrays.PushStep | src/encoded_multistring.cpp:23-38 | one more push appends the encoding of string k and its end offset |
| SuffixArrays.EndsLens | src/encoded_multistring.cpp:36-37 | appending the end offsets of the generated strings keeps earlier lengths and gives the new strings their generated lengths |
| SuffixArrays.EndsLast | src/encoded_multistring.cpp:37 | the last end offset is the end of the extended buffer |
| SuffixArrays.ConcatStep | src/encoded_multistring.cpp:23-38 | the text after k + 1 strings is the text after k strings plus the encoding of string k and a boundary |
| Sais.Types | src/suffix_array.cpp:93-101 | one suffix type per position |
| Sais.ClassifyTypes | src/suffix_array.cpp:95-101 | the right-to-left classification loop yields `Types(s)`: the last position S, each other S exactly when its symbol is smaller than the next, or equal and the next is S |
| Sais.TypeMeaning | src/suffix_array.cpp:100 | position j is S-type exactly when its suffix is smaller than the next suffix, or it lies in the final run of equal symbols |
| Sais.LmsAfterLarger | src/suffix_array.cpp:33-37 | an LMS position follows a strictly larger symbol |
| Sais.LastLms | src/suffix_array.cpp:33-37 | the last position is LMS exactly when the symbol before it is larger |
| Sais.LastNotLmsAfterEmptyString | src/suffix_array.cpp:96-101 | for the text `[1, 0, 0]` (one string and an empty one) the last position is S-type after an S-type position, so not LMS, while every suffix array of the text lists it |
| Sais.BucketSpan | src/suffix_array.cpp:51-55 | the bucket of c spans its occurrences: its end is its start plus the count of c |
| Sais.CountBelowZero | src/suffix_array.cpp:50 | no symbol is below 0, so bucket 0 starts at 0 |
| Sais.CountBelowSnoc | src/suffix_array.cpp:44-47 | one more symbol adds one to the counts it falls into |
| Sais.InitBkt | src/suffix_array.cpp:39-56 | bucket c ends after the symbols <= c (`end`) or starts after the symbols < c; entries from `num_alphas` on are untouched |
| Sais.CountInto | src/suffix_array.cpp:43-47 | the counting loop leaves the occurrence count of each symbol in its bucket |
| Sais.PrefixSums | src/suffix_array.cpp:49-55 | the prefix-sum loop turns counts into bucket ends or starts |
| Sais.InitBktSentinel | src/sufarr.cpp:154-171 | the sentinel variant's buckets are those of the text with a virtual 0 appended |
| Sais.Induce | src/suffix_array.cpp:58-85 | the two passes write only L-type predecessors at or above their bucket start and S-type predecessors below their bucket end, and every entry afterwards was there before or is a predecessor of a later position |
| Sais.PlaceLmsAndInduce | src/suffix_array.cpp:190-206 | stage 3 as written: afterwards every entry is the empty marker, an LMS position or a position whose successor is inside the text; so a last position that is not LMS is never placed |
| Sais.SolveReduced | src/suffix_array.cpp:162-178 | stage 2 recurses exactly when the names are not unique, and either way the result sorts the reduced string |
| Sais.InvertNames | src/suffix_array.cpp:171-178 | unique names are their own ranks: `sa[names[i]] = i` sorts the suffixes of the reduced string |
| Sais.NamesArePermutation | src/suffix_array.cpp:174-177 | an inverse of distinct names below n is a suffix array of the names |
| Sais.InjectiveImage | src/suffix_array.cpp:174-177 | n distinct values make a set of n values |
| Sais.RangeFull | src/suffix_array.cpp:174-177 | a set of n values below n holds every value below n |
| Sufarr.SymbolAt | src/sufarr.cpp:70 | symbol k of the text; a read one past the end yields the virtual sentinel, smaller than every id |
| Sufarr.AboveMeaning | src/sufarr.cpp:113-127 | `Above(t, a)` is `t < a` without a being an extension of t |
| Sufarr.PrefixBetween | src/sufarr.cpp:77-135 | the suffixes starting with t are exactly those neither below t nor above it |
| Sufarr.MismatchTests | src/sufarr.cpp:97 | the tests of the searches at the common prefix (`mlcp == len_t`, `t[mlcp] < s_[...]`) decide `Less` and `Above` |
| Sufarr.NotBelowMonotone | src/sufarr.cpp:93-101 | "not below t" is monotone along the suffix order, so the binary search may halve |
| Sufarr.AboveMonotone | src/sufarr.cpp:123-131 | "above t" is monotone along the suffix order |
| Sufarr.SuffixArray.Suf | src/sufarr.cpp:141-142 | the suffix at rank k |
| Sufarr.SuffixArray.constructor | src/sufarr.cpp:18-21 | the default constructor leaves every vector empty |
| Sufarr.SuffixArray.FromText | src/sufarr.cpp:23-27 | stores the text and builds all three arrays for it |
| Sufarr.SuffixArray.WithAlphabet | src/sufarr.cpp:29-32 | as written the text is not stored: the arrays are built for the empty text whatever is passed |
| Sufarr.SuffixArray.Construct | src/sufarr.cpp:34-38 | `construct(s)` copies s and leaves a built state for it |
| Sufarr.SuffixArray.ConstructWithAlphabet | src/sufarr.cpp:40-44 | `construct(s, num_alphas)` copies s and builds with ids up to num_alphas |
| Sufarr.SuffixArray.Build | src/sufarr.cpp:51-60 | the arrays cover the `|s| + 1` suffixes, the empty suffix (the virtual sentinel) at rank 0, with inverse ranks and the boundary-free LCP array |
| Sufarr.SuffixArray.Clear | include/sufarr.hpp:91-97 | the text and the three arrays become empty |
| Sufarr.SuffixArray.Size | include/sufarr.hpp:99-102 | the number of ranks, text length plus one |
| Sufarr.SuffixArray.Empty | include/sufarr.hpp:104-107 | a built array is never empty |
| Sufarr.SuffixArray.Term | include/sufarr.hpp:114-117 | the id at text position i |
| Sufarr.SuffixArray.Rank | include/sufarr.hpp:119-122 | the rank of position i: the rank whose suffix starts at i |
| Sufarr.SuffixArray.Lcp | include/sufarr.hpp:124-127 | entry i > 0 is the boundary-free common prefix of the suffixes at ranks i and i - 1; entry 0 is 0 |
| Sufarr.SuffixArray.At | include/sufarr.hpp:129-137 | the position at rank i, whose suffix is smaller than the next rank's |
| Sufarr.SuffixArray.CalcLcp | src/sufarr.cpp:137-145 | `calc_lcp(t, i)` is the plain common prefix of t and the suffix at rank i |
| Sufarr.SuffixArray.LowerBound | src/sufarr.cpp:77-105 | the first rank in 1 .. \|s\| whose suffix is not below t, or \|s\| + 1: all ranks before it are below t |
| Sufarr.SuffixArray.BelowUpTo | src/sufarr.cpp:93-101 | every rank from 1 up to a rank below t is below t |
| Sufarr.SuffixArray.AboveFrom | src/sufarr.cpp:123-131 | every rank from a rank above t to the last is above t |
| Sufarr.SuffixArray.UpperBound | src/sufarr.cpp:107-135 | the first rank in 1 .. \|s\| whose suffix is above t and does not start with t, or \|s\| + 1: no rank before it is above t |
| Sufarr.SuffixArray.NotAboveUpTo | src/sufarr.cpp:123-131 | every rank from 1 up to a rank not above t is not above t |
| Sufarr.SuffixArray.OccurrenceRange | src/sufarr.cpp:77-135 | the ranks in [lower_bound, upper_bound) are exactly the ranks in 1 .. \|s\| whose suffix starts with t |
| Sufarr.SuffixArray.FindAsWritten | src/sufarr.cpp:62-75 | `find` as written reports only ranks strictly between 1 and \|s\|, and anything it reports starts with t |
| Sufarr.SuffixArray.Find | src/sufarr.cpp:62-75 | the corrected `find` reports a rank starting with t exactly when some rank in 1 .. \|s\| starts with t |
| Sufarr.MaxId | src/sufarr.cpp:46-49 | the largest id of a non-empty text |
| Sufarr.EmptySuffixFirst | src/sufarr.cpp:51-60 | the empty suffix is the smallest, so it has rank 0 |
| Sufarr.FindAsWrittenMisses | src/sufarr.cpp:62-75 | for the text `[1, 0]` and the pattern `[1]`, the only occurrence is at rank 2 = \|s\|, which `find` as written never inspects |
| Counting.Join | src/count.cpp:33-39 | the concatenation loop of `fit` yields the strings with exactly one `L'\0'` between consecutive strings and none at the end |
| Counting.Split | src/count.cpp:33-39 | the inverse of the concatenation: cutting at every separator always gives at least one piece |
| Counting.SplitJoined | src/count.cpp:33-39 | splitting the joined strings gives them back when none holds the separator: the join loses nothing |
| Counting.SplitPlain | src/count.cpp:34 | a separator-free string splits into itself |
| Counting.SplitTail | src/count.cpp:37-38 | appending a separator and any prefix of a separator-free string adds exactly that prefix as one more piece |
| Counting.Matches | src/count.cpp:84-90 | the positions at ranks [lo, hi) whose suffix starts with t; each is a text position at which t occurs |
| Counting.MatchesAre | src/count.cpp:84-90 | when [lb, ub) holds exactly the matching ranks, the matches are the positions at those ranks |
| Counting.MatchesAreOccurrences | src/count.cpp:82-84 | a position is matched exactly when an occurrence of t starts there |
| Counting.PresCount | src/count.cpp:86-90 | the number of positions whose preserve length is below n, at most the number of positions |
| Counting.LeftSyms | src/count.cpp:103-109 | one left symbol per occurrence |
| Counting.RightSyms | src/count.cpp:122-128 | one right symbol per occurrence |
| Counting.LeftOfSnoc | src/count.cpp:103-109 | one more occurrence adds its left symbol to the histogram |
| Counting.RightOfSnoc | src/count.cpp:122-128 | one more occurrence adds its right symbol to the histogram |
| Counting.RightReadAsWritten | src/count.cpp:126 | the guard as written compares `j + n` with the suffix-array size, one more than the text length, and reads position `j + n` when it passes |
| Counting.RightReadPastEnd | src/count.cpp:126 | for the text `[1]` and the occurrence of length 1 at position 0, the guard passes and `get_hr` reads one past the end of the text |
| Counting.LeftScan | src/count.cpp:103-109 | the `get_hl` loop over ranks [lb, ub) counts the symbol before each occurrence, the boundary id before position 0 |
| Counting.RightScan | src/count.cpp:122-128 | the corrected `get_hr` loop counts the symbol n after each occurrence, the boundary id when the occurrence ends the text |
| Counting.StringCounter.constructor | src/count.cpp:20-22 | the four tables start with `max_len` zeros and nothing is fitted |
| Counting.StringCounter.InitCharIdMap | src/count.cpp:133-153 | the boundary character gets id 0 and every other character the next id from 1 in first-seen order; one id per character |
| Counting.StringCounter.ToCharIds | src/count.cpp:155-165 | the id of every character when all were seen by `fit`; otherwise `out_of_range` naming a character that was not |
| Counting.StringCounter.Fit | src/count.cpp:31-51 | the text is the joined strings through the id map, the suffix array is built on it, the averages are those of the totals, and every preserve length is 0 with one entry per rank |
| Counting.StringCounter.CalcAvg | src/count.cpp:307-315 | only the lengths before the first zero count are divided; later entries are untouched |
| Counting.StringCounter.SetPres | src/count.cpp:53-69 | the window [p, p+n) becomes `PresLens(pres, n)` and nothing else changes |
| Counting.StringCounter.UnsetPres | src/count.cpp:71-75 | exactly the window [p, p+n) is zeroed |
| Counting.StringCounter.IvCount | src/count.cpp:77-92 | excluded exactly when n > max_len or the average is 0; otherwise the number of occurrences of `s[i..i+n)` whose preserve length is below n |
| Counting.StringCounter.LeftHistogram | src/count.cpp:95-112 | excluded under the same guard on `hl_avgs_`; otherwise the multiset of symbols before every occurrence |
| Counting.StringCounter.RightHistogram | src/count.cpp:114-131 | excluded under the same guard on `hr_avgs_`; otherwise the multiset of symbols after every occurrence, the boundary id at the text end (guard corrected) |
| Counting.StringCounter.Occurrences | src/count.cpp:82-84 | the positions where `s[i..i+n)` occurs, each a valid preserve-length index |
| Counting.StringCounter.Bounds | src/count.cpp:84 | `lower_bound` and `upper_bound` delimit exactly the occurrences of the substring |
| Counting.StringCounter.OccurrenceNonEmpty | src/count.cpp:82-84 | a substring of the text occurs at least once, so its bounds are ordered |
| Counting.StringCounter.Clear | include/count.hpp:86-89 | only the suffix array is emptied |
| Counting.NewStringCounter | src/count.cpp:24-28 | a negative smoothing parameter is rejected with `invalid_argument` and its message; otherwise a fresh counter with empty text |
| Counting.IdsBelowAlphabet | src/count.cpp:133-153 | every id lies below the alphabet size, and an id is 0 exactly for the boundary character |
| Preserve.NextCut | src/count.cpp:57-66 | the end of the word holding k: after k, at most n, a cut unless it is n, and no cut lies strictly between k and it |
| Preserve.PresLens | src/count.cpp:53-69 | one preserve length per position of the string |
| Preserve.CountsUnlessInsideWord | src/count.cpp:86-90 | an occurrence of length m at k is counted (m exceeds the preserve length) exactly when it is not a proper part of one word |
| Preserve.WordOf | src/count.cpp:57-66 | every position lies in exactly one word, the one numbered by the cuts at or below it |
| Preserve.SameWord | src/count.cpp:57-66 | only one word holds a position |
| Preserve.WritePres | src/count.cpp:53-69 | the backward loop of `set_pres` writes exactly the preserve lengths into [p, p+n) and leaves every other entry alone |
| Preserve.ZeroWindow | src/count.cpp:71-75 | `unset_pres` zeroes exactly [p, p+n), every other entry is kept |
| Preserve.ZeroAfterWrite | src/count.cpp:53-75 | `unset_pres` undoes `set_pres` on a window that was zero before |
| Preserve.Words | src/string_counter.cpp:58-67 | the words the cuts delimit, one more than the cuts |
| Preserve.WordsPartition | src/string_counter.cpp:58-67 | the words concatenate back to the string: the cuts partition [p, p+n) |
| TriePaths.Wrap | src/freq_trie.hpp:130-163 | a value is reduced into `size_t` range and a value already in range is unchanged |
| TriePaths.PrefixIn | src/freq_trie.hpp:103-113 | every prefix of a node of a trie is a node |
| TriePaths.Walked | src/freq_trie.hpp:130-163 | `increase`/`decrease` keep the node set and keep every counter a `size_t` value |
| TriePaths.WalkedRoundTrip | src/freq_trie.hpp:130-163 | `decrease(r)` undoes `increase(r)` and vice versa, on every trie, wrap-around included |
| TriePaths.WalkedEachSnoc | src/string_counter.cpp:58-67 | the per-word walks of `set_pres` are taken one word after another |
| TriePaths.WalkedEachSteps | src/string_counter.cpp:58-67 | walking several ranges moves each counter by the total number of walks that reach it |
| TriePaths.WalkedEachRoundTrip | src/string_counter.cpp:41-85 | the `increase` calls of `unset_pres` undo the `decrease` calls of `set_pres` on the same cuts |
| TriePaths.WalkedEachAppend | src/string_counter.cpp:58-67 | walking the words of a, then of b, is walking the words of a + b |
| TriePaths.WalkedEachCommute | src/string_counter.cpp:41-85 | two lists of walks give the same counters in either order |
| TriePaths.WalkedEachSwap | src/string_counter.cpp:41-85 | undoing the walks of words b and then walking b' leaves the counters as if b' had been walked instead |
| TriePaths.SteppedCommute | src/freq_trie.hpp:141-159 | steps up and down on a `size_t` counter commute |
| TriePaths.WrapCancel | src/freq_trie.hpp:141-159 | k steps down undo k steps up on a `size_t` counter, even through a wrap |
| TriePaths.TouchesOnlySubstrings | src/freq_trie.hpp:130-145 | a walk of r touches only nodes that are proper non-empty substrings of r: never the root, never r itself |
| TriePaths.Walk | src/freq_trie.hpp:130-163 | the nested loops of `increase`/`decrease` compute `Walked`: every node moves by the number of starts whose walk reaches it, the node of the whole range is skipped, and a missing child stops a walk |
| TriePaths.WalkFrom | src/freq_trie.hpp:134-143 | the inner loop for one start extends the walked state by that start |
| TriePaths.MissingStops | src/freq_trie.hpp:139-140 | once a child is missing, no longer path from the same start is a node: breaking out loses nothing |
| FreqTries.AddChildClosed | src/freq_trie.hpp:195-203 | adding a child to a node keeps the node set prefix-closed |
| FreqTries.Lookup | src/freq_trie.hpp:116-127 | the lookup loop of `find` returns the node of the whole range exactly when it exists, and null otherwise |
| FreqTries.SharedTrie.constructor | src/freq_trie.hpp:84-88 | a fresh trie is a single root with f, hl and hr all 0 |
| FreqTries.SharedTrie.Copy | src/freq_trie.hpp:90-94 | the copy has every node and counter of the other trie |
| FreqTries.SharedTrie.Assign | src/freq_trie.hpp:96-100 | assignment replaces every node and counter by the other trie's |
| FreqTries.SharedTrie.Get | src/freq_trie.hpp:195-203 | an existing child is returned unchanged; a missing one is null without `create`, and with it exactly one new node with zero counters |
| FreqTries.SharedTrie.Insert | src/freq_trie.hpp:102-113 | every prefix of r becomes a node and r's node is returned; existing nodes keep their counters and new nodes start at 0 |
| FreqTries.SharedTrie.SetCounters | src/freq_trie.hpp:60-78 | writing through a node handle changes that node's three counters and nothing else |
| FreqTries.SharedTrie.Find | src/freq_trie.hpp:115-127 | the node of r when it exists, otherwise null |
| FreqTries.SharedTrie.Increase | src/freq_trie.hpp:129-145 | `f` becomes `Walked(f, r, up)`; hl and hr are untouched |
| FreqTries.SharedTrie.Decrease | src/freq_trie.hpp:147-163 | `f` becomes `Walked(f, r, down)`, the inverse of `Increase`; hl and hr are untouched |
| FreqTries.SharedTrie.Clear | src/freq_trie.hpp:165-168 | only the root remains, with every counter 0 |
| FreqTries.Trie.constructor | include/esapp/freq_trie.hpp:76-79 | a fresh trie is a single root with f, avl and avr all 1 |
| FreqTries.Trie.Root | include/esapp/freq_trie.hpp:81-87 | the root is the empty path, always a node |
| FreqTries.Trie.Child | include/esapp/freq_trie.hpp:144-147 | the child by key when it exists, otherwise null; nothing is created |
| FreqTries.Trie.Get | include/esapp/freq_trie.hpp:149-159 | an existing child is returned unchanged; a missing one is null without `create`, and with it exactly one new node with every counter 1 |
| FreqTries.Trie.SetCounters | include/esapp/freq_trie.hpp:57-70 | writing through a node pointer changes that node's counters, stored modulo 2^64, and nothing else |
| FreqTries.Trie.Find | include/esapp/freq_trie.hpp:89-99 | the node of r when it exists, otherwise null |
| FreqTries.Trie.Increase | include/esapp/freq_trie.hpp:101-114 | `f` becomes `Walked(f, r, up)`; avl and avr are untouched |
| FreqTries.Trie.Decrease | include/esapp/freq_trie.hpp:116-129 | `f` becomes `Walked(f, r, down)`; avl and avr are untouched |
| FreqTries.Trie.Clear | include/esapp/freq_trie.hpp:131-133 | only the root remains, with every counter 0 |
| FreqTries.InternalTrie.constructor | include/esapp/internal/freq_trie.hpp:75-78 | a fresh trie is a single root with f, avl and avr all 1 |
| FreqTries.InternalTrie.Root | include/esapp/internal/freq_trie.hpp:80-88 | the root is the empty path, always a node |
| FreqTries.InternalTrie.Child | include/esapp/internal/freq_trie.hpp:134-144 | the child by key when it exists, otherwise null; nothing is created |
| FreqTries.InternalTrie.GetOrCreate | include/esapp/internal/freq_trie.hpp:146-156 | `created` exactly when the child was missing; then exactly one new node with every counter 1, otherwise nothing changes |
| FreqTries.InternalTrie.Find | include/esapp/internal/freq_trie.hpp:90-101 | the node of r when it exists, otherwise null |
| FreqTries.InternalTrie.Decrease | include/esapp/internal/freq_trie.hpp:103-117 | `f` becomes `Walked(f, r, down)`; avl and avr are untouched |
| FreqTries.InternalTrie.SetCounters | include/esapp/internal/freq_trie.hpp:53-68 | writing through a node pointer changes that node's counters, stored modulo 2^64, and nothing else |
| FreqTries.InternalTrie.Clear | include/esapp/internal/freq_trie.hpp:119-122 | only the root remains, with every counter 0 |
| Tries.Increased | src/trie.cpp:22-41 | `increase` adds exactly the counted paths of the range to the node set |
| Tries.Decreased | src/trie.cpp:52-66 | `decrease` adds and removes no node |
| Tries.IncreaseDepthBound | src/trie.cpp:28-33 | every node `increase` adds is non-empty, at most `max_depth` long, and occurs in the range |
| Tries.IncreaseCreates | src/trie.cpp:25-33 | `increase` creates the node of every substring of length 1 to `max_depth`, except the whole range when `include_self` is false |
| Tries.IncreaseThenDecrease | src/trie.cpp:22-66 | `decrease` after `increase` with the same arguments steps only existing nodes and gives every `f` back its old value, 0 for the nodes the increase created |
| Tries.IncreasedClosed | src/trie.cpp:30-31 | `increase` keeps the node set prefix-closed |
| Tries.ParentCounted | src/trie.cpp:28-33 | the parent of a counted path is counted too, unless it is the root |
| Tries.IncreaseWalk | src/trie.cpp:22-41 | the nested loops of `increase` compute `Increased`: each occurrence bumps `f` and the tallies of its left and right neighbour, the boundary at either end |
| Tries.IncreaseFrom | src/trie.cpp:27-40 | the inner loop for one start extends the walked state by that start |
| Tries.DecreaseWalk | src/trie.cpp:52-66 | the nested loops of `decrease` compute `Decreased`: one less `f` per occurrence |
| Tries.DecreaseFrom | src/trie.cpp:57-64 | the inner loop for one start extends the walked state by that start |
| Tries.Children | src/trie.cpp:374-432 | a path is a child of p exactly when it is a node one longer than p that extends p |
| Tries.NodeDepth | src/trie.cpp:405-421 | `FreqTrieNode::depth` is the length of the longest path below the node: one is reached and none is longer |
| Tries.Cleared | src/trie.cpp:423-432 | after `clear` only the root is left, with `f` 0 and its tallies kept |
| Tries.WithHsp1 | src/trie.cpp:77-120 | `update_hsp1` changes no count, keeps the root and keeps the trie sane |
| Tries.WithIv | src/trie.cpp:150-161 | `update_iv` changes no count, keeps the root and keeps the trie sane |
| Tries.FreqTrie.constructor | src/trie.cpp:10-14 | a single fresh root, the given settings, and no averages |
| Tries.FreqTrie.PassOf | src/trie.cpp:22-24 | a pass carries the range and the trie's settings |
| Tries.FreqTrie.Increase | src/trie.cpp:22-41 | the nodes become `Increased` of the old nodes |
| Tries.FreqTrie.IncreaseAll | src/trie.cpp:43-50 | each sequence is increased in order |
| Tries.FreqTrie.Decrease | src/trie.cpp:52-66 | the nodes become `Decreased` of the old nodes |
| Tries.FreqTrie.DecreaseAll | src/trie.cpp:68-75 | each sequence is decreased in order |
| Tries.FreqTrie.Find | src/trie.cpp:235-253 | the node of r when it exists, otherwise null |
| Tries.FreqTrie.Get | src/trie.cpp:395-403 | an existing child is returned unchanged; a missing one is null without `create`, and with it exactly one fresh node |
| Tries.FreqTrie.HlOf | src/trie.cpp:163-175 | the node's `hl`, or -1 when r has no node |
| Tries.FreqTrie.HrOf | src/trie.cpp:177-189 | the node's `hr`, or -1 when r has no node |
| Tries.FreqTrie.IvOf | src/trie.cpp:191-203 | the node's `iv`, or -1 when r has no node |
| Tries.FreqTrie.Depth | src/trie.cpp:205-208 | the length of the longest path of the trie |
| Tries.FreqTrie.Clear | src/trie.cpp:294-298 | the nodes become `Cleared` and the averages are dropped |
| Tries.FreqTrie.UpdateHsp1 | src/trie.cpp:77-120 | the nodes become `WithHsp1` of the old nodes |
| Tries.FreqTrie.UpdateFm | src/trie.cpp:122-148 | the averages are taken from the trie as it is now |
| Tries.FreqTrie.UpdateIv | src/trie.cpp:150-161 | fails exactly when no averages were taken since the last `clear`, leaving the nodes alone; otherwise the nodes become `WithIv` |
| TrieIteration.ChildKeys | src/trie.cpp:326-330 | k is a child key of p exactly when p + [k] is a node |
| TrieIteration.Entries | src/trie.cpp:324-330 | one stack entry per child key, one level deeper than the popped node |
| TrieIteration.TrieIterator.End | src/trie.cpp:304-309 | the default iterator is the empty stack, which is `end()` |
| TrieIteration.TrieIterator.At | src/trie.cpp:311-316 | the iterator from a node holds that node at depth 0 |
| TrieIteration.TrieIterator.Top | src/trie.cpp:343-347 | `operator*` gives an entry of the stack |
| TrieIteration.TrieIterator.Increment | src/trie.cpp:318-333 | `operator++` pops the top and pushes each of its children one level deeper, every child exactly once, in any order; the entries below are untouched |
| TrieIteration.PendingMember | src/trie.cpp:318-333 | a node is still to visit exactly when it lies at or below an entry of the stack |
| TrieIteration.ChildrenPending | src/trie.cpp:324-330 | the pushed children cover the subtree of the popped node without that node |
| TrieIteration.AdvancePending | src/trie.cpp:318-333 | one `operator++` visits the top: the nodes still to visit lose exactly it |
| TrieIteration.AdvanceShaped | src/trie.cpp:318-333 | `operator++` keeps every entry's depth equal to its path length and the entries' subtrees disjoint |
| TrieIteration.WalkStep | src/trie.cpp:318-333 | visiting the top and advancing keeps the walk's invariant and strictly shrinks what is left to visit |
| TrieIteration.VisitsSnoc | src/trie.cpp:318-333 | a visit of a new node keeps the visits distinct |
| TrieIteration.Walk | src/trie.cpp:215-218 | the loop from `begin()` to `end()` visits every node but the root exactly once, each with its depth, which is at least 1 |
| StringCounters.Clip | src/string_counter.cpp:142 | `min(l, max_len)`: at most both, and equal to one of them |
| StringCounters.SharedIffRecurs | src/string_counter.cpp:96 | the test of `score` holds (a rank neighbour shares n symbols) exactly when `s[i..i+n)` is boundary-free and occurs at another position too |
| StringCounters.NextBoundary | src/string_counter.cpp:146-147 | the first boundary at or after p, or the end of the text: no boundary lies before it |
| StringCounters.RankCountInterval | src/string_counter.cpp:173 | ranks sharing a prefix form an interval [st, i], so the string occurs i - st + 1 times |
| StringCounters.IntervalRanks | src/string_counter.cpp:155-173 | a popped interval [st, i] of length m holds exactly the ranks whose suffix starts with the boundary-free first m symbols at rank i |
| StringCounters.SkipStep | src/string_counter.cpp:138-141 | a skipped rank has its successor and itself starting with a boundary, both LCPs 0 and the stack only at its bottom, so skipping loses nothing |
| StringCounters.LeftCounts | src/string_counter.cpp:164-170 | the `sp1l` loop collects the symbol before each rank of the interval, the boundary before position 0 |
| StringCounters.RightCounts | src/string_counter.cpp:176-183 | the `sp1r` loop collects the symbol j + 1 after each rank of the interval, the boundary past the end |
| StringCounters.Singletons | src/string_counter.cpp:145-153 | each length from `max(lcp, prev_lcp)` up to `max_len` that stays before the next boundary gains one string of frequency 1 with entropy `h1` on both sides; other lengths are untouched |
| StringCounters.SingletonCount | src/string_counter.cpp:145-153 | a string longer than both neighbours' LCPs occurs exactly once, so frequency 1 is its true count |
| StringCounters.WriteLengths | src/string_counter.cpp:174-196 | each length of a popped interval is added to the totals with frequency i - st + 1, its occurrence count, and with hl and the entropy of its `sp1r`, the entropies of its left and right neighbour multisets; its trie node gets the same three values |
| StringCounters.WriteLength | src/string_counter.cpp:176-195 | `sp1r` is the right neighbour multiset of the string; after `insert` and the writes of f, hl and hr, its node holds its occurrence count and the entropies of its neighbours on both sides, and every other node keeps its values or is a new node at 0 |
| StringCounters.PopIntervals | src/string_counter.cpp:155-197 | the pop loop closes every open interval longer than the next LCP, reopens a shorter one when it still exceeds the one below, and adds exactly the closed lengths, with their counts and neighbour entropies, to the totals and the trie |
| StringCounters.SweepIntervals | src/string_counter.cpp:123-205 | from a zero table, the rank loop gives the true totals per length. The `hl_avgs_`/`hr_avgs_` totals for length j + 1 are the sums, over the distinct substrings of that length, of the entropy of each one's left/right neighbours (`h1` for a string that occurs once). Every trie node written holds its substring's occurrence count and both neighbour entropies |
| StringCounters.NeighboursOfInterval | src/string_counter.cpp:164-183 | when a string's ranks are exactly `st .. i`, its left/right neighbour multisets are the symbols before/after those ranks, the boundary at either end of the text; with st < i it occurs at least twice |
| StringCounters.IntervalSides | src/string_counter.cpp:164-186 | for a popped interval, `entropy(sp1l)` and `entropy(sp1r)` are the contributions of each of its strings to the hl/hr totals |
| StringCounters.IntervalReadyFor | src/string_counter.cpp:155-186 | every length `lo + 1 .. hi` of a popped interval has its count i - st + 1 and its neighbour entropies hl and `entropy(sp1r)` |
| StringCounters.RankJoin | src/string_counter.cpp:145-197 | the singletons and the pops of one rank together add, and write into the trie, exactly what that rank counts, entropies included |
| StringCounters.SideBelowEmitted | src/string_counter.cpp:135-205 | rank by rank, the hl/hr added to length j + 1 is the sum over the strings counted so far of their neighbour entropies |
| StringCounters.SweepSidesTallied | src/string_counter.cpp:135-205 | after the whole sweep, the hl/hr totals of length j + 1 are the sums of the neighbour entropies of the distinct substrings of that length |
| StringCounters.SidesComplete | src/string_counter.cpp:191-195 | after the sweep, every repeated boundary-free substring up to `max_len` has a node holding the entropies of its neighbours on both sides |
| StringCounters.SideSumRemove | src/string_counter.cpp:146-190 | the entropy sum over a set of distinct strings does not depend on the order in which they are counted: any member can be taken first |
| StringCounters.EmitsUnique | src/string_counter.cpp:135-205 | two ranks never count the same string of the same length |
| StringCounters.NodesComplete | src/string_counter.cpp:191-195 | after the sweep every repeated boundary-free substring up to `max_len` has a node with its occurrence count |
| StringCounters.SweepTallied | src/string_counter.cpp:135-205 | the totals after every rank are the tallies of the text |
| StringCounters.NumsDistinct | src/string_counter.cpp:146-190 | `str_nums_[j]` is the number of distinct boundary-free substrings of length j + 1 |
| StringCounters.FreqOccurrences | src/string_counter.cpp:146-187 | the frequency total for length j + 1 is the number of its boundary-free occurrences |
| StringCounters.StringCounter.constructor | src/string_counter.cpp:23-26 | tables of `max_len` zeros, an empty trie and an empty text |
| StringCounters.StringCounter.SetPres | src/string_counter.cpp:41-68 | the window gets the preserve lengths of the cuts, every word of the segmentation is walked down in the trie, and nothing else changes |
| StringCounters.StringCounter.UnsetPres | src/string_counter.cpp:70-85 | the window is zeroed, every word is walked back up in the trie, and nothing else changes |
| StringCounters.StringCounter.Case | src/string_counter.cpp:87-113 | excluded when n > `max_len` or the average is 0; the trie node when the substring recurs; the singleton values when n exceeds the preserve length; excluded otherwise |
| StringCounters.StringCounter.Score | src/string_counter.cpp:87-118 | minus infinity exactly in the excluded case; otherwise the formula on the chosen statistics and the averages; never a null node once the counter is fitted |
| StringCounters.StringCounter.RawStringCount | src/string_counter.hpp:95-98 | the number of raw strings fitted |
| StringCounters.StringCounter.RawStringLength | src/string_counter.hpp:100-103 | the length of raw string i: a boundary ends it and the next string starts right after |
| StringCounters.StringCounter.CalcAvg | src/string_counter.cpp:120-216 | `h1_` is the entropy of one boundary. Every repeated substring's node holds its count and the entropies of its left and right neighbours. The tallies are the true totals, the entropy totals being per-string neighbour entropies (`h1_` for a singleton), and the averages are divided up to the first length without a string |
| StringCounters.StringCounter.SetAverages | src/string_counter.cpp:207-215 | the tables take the averages of the totals, up to the first empty length |
| StringCounters.StringCounter.Fit | src/string_counter.hpp:84-93 | the strings are appended to the text, the arrays rebuilt and the statistics recomputed: `h1_` the entropy of one boundary, `str_nums_[j]` the distinct substrings of length j + 1, the entropy totals the sums of their neighbour entropies, every repeated substring's node its count and neighbour entropies, the averages the totals divided up to the first length without a string. Every preserve length is reset to 0 |
| StringCounters.StringCounter.ResetLens | src/string_counter.hpp:90-92 | one preserve length of 0 per position, nothing else changed |
| StringCounters.StringCounter.Clear | src/string_counter.hpp:105-108 | the text, its offsets and the suffix array are emptied |
| StringCounters.WalkWords | src/string_counter.cpp:58-67 | the trie loops of `set_pres`/`unset_pres` walk every word of the segmentation in order; hl and hr are untouched |
| StringCounters.NewStringCounter | src/string_counter.cpp:23-39 | a negative LRV exponent, else a negative smoothing parameter, is rejected with its message; otherwise a fresh counter |
| StringCounters.SetUnsetRoundTrip | src/string_counter.cpp:41-85 | `unset_pres` after `set_pres` with the same cuts restores every trie frequency and, on a clear window, every preserve length |
| Segmenters.Plus | src/segmenter.cpp:119 | the sum of two scores is finite exactly when both are; minus infinity absorbs |
| Segmenters.PlusMonotone | src/segmenter.cpp:119-120 | adding the same score keeps the order of two scores |
| Segmenters.Relax | src/segmenter.cpp:113-125 | the inner loop keeps a choice among the splits seen, and the value is that choice's candidate |
| Segmenters.RelaxBest | src/segmenter.cpp:115-125 | the kept value is the maximum of the candidates seen and the kept choice the first reaching it (the comparison is a strict `>`) |
| Segmenters.Cuts | src/segmenter.cpp:129-134 | following `fs` back from a position gives strictly increasing cuts ending at that position |
| Segmenters.ChainedIsValid | src/segmenter.cpp:129-134 | cuts read back from `fs` are exactly the valid cut lists: strictly increasing, inside (0, n) |
| Segmenters.ValueAchieved | src/segmenter.cpp:111-126 | each `fv[i]` is the total score of the segmentation `fs` leads back to from row i |
| Segmenters.RowBest | src/segmenter.cpp:111-126 | `fv[i]` is the maximum over all choices for the prefix [0, i] and `fs[i]` the first choice reaching it |
| Segmenters.ValueOptimal | src/segmenter.cpp:111-126 | no segmentation of the prefix [0, i] scores above `fv[i]` |
| Segmenters.BestIsOptimal | src/segmenter.cpp:105-135 | the segmentation `optimize_segment` returns scores at least as high as every other segmentation of the string |
| Segmenters.OptimizeSegment | src/segmenter.cpp:105-135 | leaves `seg` alone for an empty string; otherwise returns valid cuts of [0, n), those of the best segmentation |
| Segmenters.FillRow | src/segmenter.cpp:113-125 | row i of `fv`/`fs` gets the relaxed value and choice over all i splits; earlier rows are untouched |
| Segmenters.ReadBack | src/segmenter.cpp:128-134 | the read-back and `std::reverse` return the cuts `fs` leads back to, in increasing order |
| SegmentWords.Pieces | src/segmenter.cpp:142-149 | one byte range between each pair of consecutive bounds |
| SegmentWords.PiecesJoin | src/segmenter.cpp:142-149 | pieces between bounds that never go down put back together the bytes from the first bound to the last |
| SegmentWords.PiecesNonEmpty | src/segmenter.cpp:142-149 | between strictly rising bounds no piece is empty |
| SegmentWords.ThreeByteBounds | src/segmenter.cpp:145-149 | the bounds as written: `begin + 3 * pos` per cut, from `begin` to `end` |
| SegmentWords.SegmentSequenceAsWritten | src/segmenter.cpp:137-150 | `segment_sequence` as written appends exactly the pieces between the three-byte bounds |
| SegmentWords.CodePointBounds | src/segmenter.cpp:145-149 | the corrected bounds: the end of the pos-th code point of the token per cut |
| SegmentWords.CodePointBoundsRise | src/segmenter.cpp:145-149 | the corrected bounds never go down and stay inside the string |
| SegmentWords.SegmentSequence | src/segmenter.cpp:137-150 | the corrected `segment_sequence` appends the pieces between code-point bounds, which put back together are the token's bytes |
| SegmentWords.ThreeByteAgrees | src/segmenter.cpp:145-149 | where every code point of the token takes three bytes the written and the corrected bounds agree |
| SegmentWords.OverlongMisplacesCut | src/segmenter.cpp:145-149 | on a four-byte overlong form of U+4E00 followed by U+4E00, the cut as written ends the first word inside a character (not decodable), while the corrected cut gives two one-character words |
| SegmentWords.Kept | src/segmenter.cpp:32-40 | the tokens handed to the counter are non-empty and start with a CJK character |
| SegmentWords.KeptComplete | src/segmenter.cpp:32-40 | no token starting with a CJK character is left out |
| SegmentWords.AddToken | src/segmenter.cpp:85-96 | a CJK token adds its cut pieces and consumes one cut list, another token not starting with whitespace is one word, whitespace adds nothing; the bytes added are the token's unless it is whitespace, and no word is empty |
| SegmentWords.StringWords | src/segmenter.cpp:79-100 | the words of one string put back together are its bytes without whitespace tokens, none is empty, and one cut list is used per CJK token |
| SegmentWords.TokenizeString | src/segmenter.cpp:83 | one string through the byte tokenizer: its decoding error, or its tokens and positions |
| SegmentWords.TokenizeAll | src/segmenter.cpp:32-43 | the error of the first string that does not decode, or the tokens and positions of every string |
| SegmentWords.FirstErrorNone | src/segmenter.cpp:32-43 | no error is reported exactly when every string decodes |
| SegmentWords.WordLoopEnd | src/segmenter.cpp:79-100 | once every token of a string is read, the words are `SegmentedWords` of the string and its cut lists, put back together they are its bytes without whitespace tokens, none is empty, and one cut list was used per CJK token |
| SegmentWords.WordLists | src/segmenter.cpp:75-102 | one word list per string, each putting back together that string's bytes without whitespace tokens, with no empty word |
| Segmentation.ToExt | src/segmenter.cpp:114-119 | a score as the double `optimize_segment` compares: finite exactly when the score is |
| Segmentation.PendingStep | src/segmenter.cpp:63-68 | putting back the previous words of string j and taking out its new ones advances the trie counts by one string |
| Segmentation.LayoutStep | src/segmenter.cpp:63-68 | clearing window j and writing its new preserve lengths advances the layout by one string |
| Segmentation.UpdateEnds | src/segmenter.cpp:60-70 | the update pass starts from the counts of the previous segmentation (none on the first pass) and ends with those of the new one |
| Segmentation.Segmenter.constructor | src/segmenter.cpp:21-26 | a fresh counter with the given parameters and the pass limit  (for arguments the counter accepts; `NewSegmenter` covers the rest) |
| Segmentation.NewSegmenter | src/segmenter.cpp:21-26 | a negative LRV exponent, else a negative smoothing parameter, is rejected with the counter's `invalid_argument` message; otherwise a fresh segmenter with an empty counter and the pass limit |
| Segmentation.Segmenter.SegmentAll | src/segmenter.cpp:50-55 | every raw string gets valid cuts of the best segmentation under the current counts; no score reads a null node |
| Segmentation.Segmenter.Fit | src/segmenter.cpp:42-73 | the counter is fitted on the tokens; at most `max_iters` passes run; the cuts returned are the last segmentation counted; when the loop stops early that segmentation is optimal under its own counts |
| Segmentation.Segmenter.FitAndSegment | src/segmenter.cpp:28-103 | the error of the first string that is not UTF-8 with no word lists and the counter unchanged; otherwise one word list per string, each putting back together the string's bytes without whitespace tokens, no empty word, and the counter fitted on all CJK tokens (word lists from the corrected `SegmentSequence`) |
| Segmentation.Segmenter.SegmentTokenized | src/segmenter.cpp:42-103 | after tokenizing, one word list per string with the same reassembly property, and the counter fitted on the CJK tokens |
| Segmentation.Segmenter.FitFresh | src/segmenter.cpp:42-73 | on an empty counter, one cut list per token, each valid for its token |
| Segmentation.Segmenter.FitCounter | src/segmenter.cpp:43 | the counter as fitting leaves it, with every repeated substring a node and no word counted yet; `h1_` is the entropy of one boundary and the averages are the sweep's totals divided up to the first length without a string |
| Segmentation.Segmenter.Iterate | src/segmenter.cpp:47-73 | at most `max_iters` passes; an early stop means the last segmentation is optimal under its own counts |
| Segmentation.Segmenter.UpdateAll | src/segmenter.cpp:60-70 | after the update pass the trie counts and preserve lengths are exactly those of the new segmentation |
| Segmentation.Segmenter.UpdateOne | src/segmenter.cpp:62-69 | one raw string of the update pass advances the pass by one string |
| Segmentation.Segmenter.Retake | src/segmenter.cpp:63-68 | `unset_pres` of the old cuts (after the first pass) then `set_pres` of the new ones trades the old words for the new ones in the trie and rewrites the window |
| Seg.SplitWords | src/seg.cpp:62-79 | `segment(sequence, seg)`: `out_of_range` exactly when the lengths run past the end; otherwise one word per length plus the rest, which put back together give the sequence, the first words having exactly the given lengths |
| Seg.GlueLens | src/seg.cpp:98-108 | gluing the left half's lengths, the remainder up to the split and the right half's lengths gives lengths of the whole range |
| Seg.Best | src/seg.cpp:81-113 | the lengths returned segment the range; a one-term range is one word scored by its `iv` |
| Seg.Candidate | src/seg.cpp:90-95 | the split at m gives a non-empty list of lengths of the range |
| Seg.ScanMax | src/seg.cpp:88-110 | no split scores more than what the loop keeps |
| Seg.ScanPick | src/seg.cpp:96 | the loop keeps its start value or the first split reaching the maximum, which beats the start strictly |
| Seg.BestChoice | src/seg.cpp:81-113 | `segment(begin, end)` returns a score at least the whole range's `iv` and every split's, and takes a split only when it beats the whole range and every earlier split strictly |
| Seg.BestKeepsWhole | src/seg.cpp:96 | the range stays one word exactly when no split scores strictly more than its `iv` |
| Seg.Segmenter.constructor | src/seg.cpp:10-14 | a trie with the given maximal length and smoothing, and the pass limit |
| Seg.Segmenter.SplitRange | src/seg.cpp:81-113 | the recursive `segment(begin, end)` computes `Best` |
| Seg.Segmenter.TrySplit | src/seg.cpp:90-109 | one turn of the loop keeps the previous choice or takes the split when it scores strictly more |
| Seg.Segmenter.Segment | src/seg.cpp:56-60 | the best segmentation of a non-empty sequence: non-empty words that put back together give the sequence, with the lengths of the best split |
| Seg.Segmenter.Fit | src/seg.cpp:16-54 | the trie is cleared and counts every sequence as a whole; each pass segments every sequence; the counts end as the whole-sequence counts with the last pass's words taken out, and the passes stop at the limit or when a segmentation repeats; every pass started from the whole-sequence counts and gave each sequence its best segmentation under them less the words of the sequences before it (`BestPasses`) |
| Seg.Segmenter.Passes | src/seg.cpp:25-53 | the loop of `fit` ends with the counts of the whole sequences less the words of its last segmentation, stops at the limit or at a repeat, and records every pass as at its best (`Fitted`) |
| Seg.Segmenter.Rescore | src/seg.cpp:52 | `update_iv()` changes only the scores, so the counts stay as the pass left them |
| Seg.Segmenter.Start | src/seg.cpp:18-22 | `clear`, `increase`, `update_hsp1`, `update_fm`, `update_iv` give the whole-sequence counts, their averages and scores, with every piece of every sequence a node |
| Seg.Segmenter.Iterate | src/seg.cpp:27-47 | one pass puts the previous words back, which gives the whole-sequence counts (`start`), and takes the new ones out, keeping the counts as the whole-sequence counts less the current words; each sequence gets its best segmentation under `start` less the words of the sequences before it (`BestEach`) |
| Seg.Segmenter.Advance | src/seg.cpp:25-53 | one turn of the loop: a pass at its best from the whole-sequence counts, then `update_iv()` unless the pass repeated the segmentation before it |
| Seg.Segmenter.FittedAtRepeat | src/seg.cpp:49 | a pass that repeats the segmentation before it ends the loop with everything `fit` promises |
| Seg.RecordedSnoc | src/seg.cpp:25-53 | a pass recorded keeps the history segmented and changing, and every pass at its best |
| Seg.BestPassesSnoc | src/seg.cpp:25-47 | one more pass at its best extends the record of best passes |
| Seg.Segmenter.Restore | src/seg.cpp:29-36 | putting back the previous words restores the whole-sequence counts |
| Seg.Segmenter.SegmentPass | src/seg.cpp:38-47 | every sequence is segmented and its words taken out of the counts |
| Seg.Total | src/seg.cpp:98-103 | the offset loop sums the left half's lengths |
| Seg.ConcatLength | src/seg.cpp:62-79 | the words put back together are as long as the sum of their lengths |
| Seg.LastWordLength | src/seg.cpp:75-76 | the last word of a proper split is not empty |
| Seg.SplitUnique | src/seg.cpp:62-79 | a split of a sequence by given lengths is unique |
| Seg.CoveredBase | src/seg.cpp:19 | counting the sequences as wholes creates a node for every piece of them up to `max_depth` terms, so `decrease` of any word steps existing nodes |
| Seg.TalliedCancel | src/seg.cpp:29-44 | putting back what was taken out restores the counts |
| Utf8.Lead | include/esapp/internal/decode_utf8.hpp:33-47 | a lead byte announces at most three continuation bytes; a byte matching none of the masks cannot start a sequence |
| Utf8.Encode | include/esapp/internal/decode_utf8.hpp:29-66 | the encoding the decoders invert takes one to four bytes |
| Utf8.DecodeEncode | include/esapp/internal/decode_utf8.hpp:29-66 | the bytes of `Encode(cp)`, whatever follows, decode to cp and end right after the encoding |
| Utf8.DecodeOverlong | include/esapp/internal/decode_utf8.hpp:42-44 | the four-byte overlong form of any code point below U+10000 decodes to that code point: the decoders are not strict |
| Utf8.DecodeShape | include/esapp/internal/decode_utf8.hpp:29-66 | one decoding step yields a code point below 2^21 taking as many bytes as the lead announces; `invalid_byte_sequence` at the lead exactly when it is not a lead byte; a later failure is `out_of_range` at the end or `invalid_byte_sequence` on a non-continuation byte |
| Utf8.DecodeUtf8 | include/esapp/internal/decode_utf8.hpp:29-66 | `decode_utf8` returns the step's code point and leaves `it` past its last byte, or throws with `it` where the step failed |
| Utf8.DecodeFrom | src/utf8_decode_iterator.hpp:87-127 | one end position per decoded code point |
| Utf8.DecodeEncodeAll | include/esapp/internal/decode_utf8.hpp:29-66 | the encoding of any sequence of code points up to U+10FFFF decodes without error to exactly that sequence |
| Utf8.DecodeFromStep | src/utf8_decode_iterator.hpp:87-127 | decoding a whole input goes one code point at a time |
| Utf8.Widen | src/utf8_decode_iterator.hpp:97 | a `char` byte widened to `uint32_t` keeps its own low 8 bits, which are all the masks read |
| Utf8.Utf8Reader.Open | src/utf8_decode_iterator.hpp:81-85 | the constructor stands at the start and decodes the first code point |
| Utf8.Utf8Reader.Next | src/utf8_decode_iterator.hpp:87-127 | at the end `char_` is 0; otherwise the step's code point with the position past it, or its error with the position one past an invalid lead byte and at a failed continuation byte |
| Utf8.Utf8Reader.Continuations | src/utf8_decode_iterator.hpp:122-126 | the continuation loop computes the continuation of the step |
| Utf8.Utf8Reader.NextByte | src/utf8_decode_iterator.hpp:145-160 | `out_of_range` at the end, `invalid_byte_sequence` on a byte that is not `10xxxxxx` without moving, otherwise the byte and one step on |
| Utf8.ReadAll | src/utf8_decode_iterator.hpp:140-143 | iterating while `valid()` gives every code point of the string in order except a final U+0000, and the first error |
| Utf8.Utf8Cursor.Open | include/esapp/internal/utf8_decode_iterator.hpp:77-80 | the constructor decodes the code point at the start |
| Utf8.Utf8Cursor.Increment | include/esapp/internal/utf8_decode_iterator.hpp:87-90 | `increment` steps past the last byte of the current code point and decodes the next one |
| Utf8.Utf8Cursor.NextCodepoint | include/esapp/internal/utf8_decode_iterator.hpp:92-120 | at the end the code point is 0; otherwise the step's code point with the base on its last byte, or its error with the base where it failed (an invalid lead byte does not move it) |
| Utf8.Utf8Cursor.Continuations | include/esapp/internal/utf8_decode_iterator.hpp:116-119 | the continuation loop computes the continuation of the step |
| Utf8.Utf8Cursor.NextByte | include/esapp/internal/utf8_decode_iterator.hpp:122-135 | the base moves first; then `out_of_range` at the end, `invalid_byte_sequence` on a byte that is not `10xxxxxx`, otherwise the byte |
| Utf8.CursorAll | include/esapp/internal/utf8_decode_iterator.hpp:77-120 | iterating from the start to the end iterator gives every code point of the string in order, NUL included, and the first error |
| ByteTokens.ByteClasses | src/token_iterator.hpp:132-133 | the four classes `next()` tries, in order: CJK, fullwidth alphanumeric, `iswalnum`, `iswspace` |
| ByteTokens.ByteTokensCover | src/token_iterator.hpp:124-139 | the tokens of the byte tokenizer are non-empty and concatenate back to the decoded code points: nothing is skipped between tokens |
| ByteTokens.ByteTokenizer.Open | src/token_iterator.hpp:96-100 | the constructor builds the reader, which may fail on the first code point, and reads the first token as `next()` does |
| ByteTokens.ByteTokenizer.Skip | src/token_iterator.hpp:102-109 | the reader moves past the maximal run of class `pred` from its code point; `it_` becomes the end of the run's last code point; a decoding error can only come from the run reaching the end of the good code points |
| ByteTokens.ByteTokenizer.Scan | src/token_iterator.hpp:111-122 | `scan` is true exactly when the run of class `pred` is non-empty; the token then becomes that run, otherwise token and `it_` are unchanged |
| ByteTokens.ByteTokenizer.Next | src/token_iterator.hpp:124-139 | on an exhausted reader the token becomes empty; otherwise the token is the first non-empty run of the four classes or the single current code point, and the reader stands just after it |
| ByteTokens.ByteTokenizer.ScanFirst | src/token_iterator.hpp:132-138 | the `scan(p0) \|\| scan(p1) \|\| …` chain reads exactly the token `TokenEnd` defines for the classes, with the single-code-point fallback |
| ByteTokens.ByteTokenizer.Drain | src/token_iterator.hpp:152-155 | looping while `valid()` collects every token not yet read and its position, or all but the last when decoding fails |
| ByteTokens.WordsAtMostOne | src/token_iterator.hpp:124-139 | a stream whose first token reaches its end yields nothing before a failure on that token |
| ByteTokens.TokenStopsAreEnds | src/token_iterator.hpp:157-160 | `position()` after each token is the byte end of the token's last code point, one position per token |
| ByteTokens.TokenizeBytes | src/segmenter.cpp:83-97 | the loop over `token_iterator(sequence)` collects exactly the tokens of the decoded code points and their positions, or all but the last one when decoding fails, and reports the decoder's error |
| ByteTokens.CursorTokenizer.Open | include/esapp/internal/token_iterator.hpp:88-91 | the constructor decodes the first code point, which may fail, and reads the first token as `next_token()` does |
| ByteTokens.CursorTokenizer.Advance | include/esapp/internal/token_iterator.hpp:113 | `++u8_it_` moves to the next code point, and fails only when the current one was the last good one |
| ByteTokens.CursorTokenizer.NextToken | include/esapp/internal/token_iterator.hpp:102-115 | the token is cleared; at the end the base moves to the end of the range; otherwise the token is the first non-empty run of the four classes or the single current code point, and the base is on its last code point |
| ByteTokens.CursorTokenizer.ScanFirst | include/esapp/internal/token_iterator.hpp:109-114 | the `scan_while` chain reads exactly the token `TokenEnd` defines for the classes, with the single-code-point fallback |
| ByteTokens.CursorTokenizer.ScanWhile | include/esapp/internal/token_iterator.hpp:117-126 | the token becomes the maximal run of class `pred`, and the result is true exactly when that run is non-empty |
| ByteTokens.CursorBase | include/esapp/internal/token_iterator.hpp:102-107 | after `next_token()` the base is the end of the range exactly when the token is empty, so comparing with the end iterator stops the loop at the end |
| ByteTokens.TokenizeCursor | include/esapp/internal/token_iterator.hpp:88-115 | iterating until the end iterator collects exactly the tokens of the decoded code points, or all but the last when decoding fails, and reports the decoder's error |
| Tokens.RunEnd | include/token_iterator.hpp:98-101 | the end of the run that `skip(pred)` passes lies between the start and the end of the input |
| Tokens.RunEndIsRun | include/token_iterator.hpp:98-101 | `skip` stops at the end of the longest run: every character passed is of class `pred`, and the one it stops on, if any, is not |
| Tokens.FirstClass | include/token_iterator.hpp:124 | the class a character belongs to is the first in the list that holds for it, none before it holds, and none holds when the result is empty |
| Tokens.TokenEnd | include/token_iterator.hpp:124-128 | a token is never empty and never runs past the input |
| Tokens.TokenEndIsToken | include/token_iterator.hpp:104-128 | the `scan` chain ends the token at the end of the longest run of the first class its first character belongs to, or after that character when it belongs to none |
| Tokens.Tokens | include/token_iterator.hpp:115-131 | every token span lies inside the input and is non-empty |
| Tokens.TokensAreRuns | include/token_iterator.hpp:115-131 | the tokens are runs as `TokenEndIsToken` describes, come in order without overlapping, and only skipped characters lie between them |
| Tokens.TokensCover | src/tok.cpp:40-55 | with nothing skipped the tokens concatenate back to the input |
| Tokens.TokensDropSpace | include/token_iterator.hpp:83-89 | skipping whitespace before and after every token: when no class contains whitespace, the tokens concatenate to the input with its whitespace removed |
| Tokens.TokenNoSpace | include/token_iterator.hpp:124-128 | a token that starts on a non-whitespace character holds no whitespace when no class contains whitespace |
| Tokens.Drop | include/token_iterator.hpp:98-101 | no character left after dropping a class belongs to that class |
| Tokens.WideClasses | include/token_iterator.hpp:124 | the classes of the wide tokenizer, in order: CJK, fullwidth alphanumeric, `iswalnum` |
| Tokens.TokClasses | src/tok.cpp:48 | the classes of `TokenIterator`, in order: CJK, then `isalnum` |
| Tokens.WideTokenizer.constructor | include/token_iterator.hpp:83-95 | the constructor skips leading whitespace and reads the first token, with the whitespace after it skipped |
| Tokens.WideTokenizer.Skip | include/token_iterator.hpp:98-101 | the position moves to the end of the longest run of class `pred` |
| Tokens.WideTokenizer.Scan | include/token_iterator.hpp:104-113 | true exactly when the position moved; the token is then the run passed, otherwise it is unchanged |
| Tokens.WideTokenizer.Next | include/token_iterator.hpp:115-131 | `has_next_` is whether input remained; if not the token is emptied and the position kept; otherwise the token is the one `TokenEnd` defines and the position is past the whitespace after it |
| Tokens.WideTokenizer.ReadToken | include/token_iterator.hpp:124-128 | the token read is exactly the span from the position to `TokenEnd` |
| Tokens.WideAdvance | include/token_iterator.hpp:115-131 | `next()` yields the current token and leaves the remaining ones to come, moving forward whenever input remains |
| Tokens.TokenizeWide | include/token_iterator.hpp:83-147 | iterating the wide tokenizer until `ended()` yields exactly the tokens of the input with the whitespace before and after each one skipped |
| Tokens.TokIterator.At | src/tok.cpp:18-28 | `at_end_` holds for an empty range; otherwise the first token after the leading whitespace is read, or the iterator reaches the end |
| Tokens.TokIterator.Copy | src/tok.cpp:59 | the copy has the same text, position, token and `at_end_` |
| Tokens.TokIterator.End | src/tok.cpp:30-33 | `end()` is an iterator at the end of the text with `at_end_` set |
| Tokens.TokIterator.Skip | include/tok.hpp:64-67 | `begin_` moves to the end of the longest run of class `pred` |
| Tokens.TokIterator.Scan | include/tok.hpp:69-82 | true exactly when `begin_` moved; the token is then the run passed, otherwise neither the position nor the token changes |
| Tokens.TokIterator.Increment | src/tok.cpp:40-55 | whitespace is skipped; at the end `at_end_` is set and the token emptied; otherwise the token is the CJK run, else the `isalnum` run, else the single character, and `begin_` follows it |
| Tokens.TokIterator.PostIncrement | src/tok.cpp:57-62 | returns the iterator as it was and advances this one as prefix `++` does |
| Tokens.TokAdvance | src/tok.cpp:40-55 | `++` yields the current token and leaves the remaining ones to come, moving forward unless it reaches the end |
| Tokens.TokenizeTok | src/tok.cpp:18-55 | iterating `TokenIterator` until it equals `end()` yields exactly the tokens of the input with the whitespace before each one skipped |
| WithSegments.Path | include/esapp/internal/with_segments.hpp:158-171 | the walk of `update_counts` takes `min(lcp_, N)` terms |
| WithSegments.Bumped | include/esapp/internal/with_segments.hpp:158-171 | after the walk the trie holds its old nodes and every prefix of the path |
| WithSegments.Grow | include/esapp/internal/with_segments.hpp:163-164 | one step of the walk adds exactly the child it reaches |
| WithSegments.CountsTotals | include/esapp/internal/with_segments.hpp:161-184 | `update_counts` raises `sum_f_` below `min(lcp_, N)` during the walk, `sum_av_` at `min(lcp_, N) - 1` when `lcp_ <= N`, and all three totals on the lengths `lcp_ .. min(n, N)` |
| WithSegments.RisesInRange | include/esapp/internal/with_segments.hpp:154-185 | given `lcp_ <= n`, `sum_f_` rises exactly on the lengths below `min(n, N)`, `num_str_` exactly on `lcp_ .. min(n, N)`, and each length counted in `num_str_` is counted in `sum_av_`, and each in `sum_av_` in `sum_f_` |
| WithSegments.CountsKeepOrder | include/esapp/internal/with_segments.hpp:154-185 | `update_counts` keeps `num_str_[k] <= sum_av_[k] <= sum_f_[k]` at every length while no total overflows |
| WithSegments.CountedIsBumped | include/esapp/internal/with_segments.hpp:161-171 | walking the path node by node creates every missing prefix at 1 and adds one exactly on the prefixes of depth `lo` or more; no other node changes |
| WithSegments.Segs | include/esapp/internal/with_segments.hpp:266-271 | a segmentation has one word per entry of `seg_pos_vec` |
| WithSegments.SegsCover | include/esapp/internal/with_segments.hpp:284-289 | the words `[prev_pos, pos)` of a segmentation put together give the whole sequence |
| WithSegments.BestSegPositions | include/esapp/internal/with_segments.hpp:276-281 | the new `seg_pos_vec` is a segmentation: positive, strictly increasing, ending at `n` |
| WithSegments.BestSegPositionsOptimal | include/esapp/internal/with_segments.hpp:216-281 | no segmentation of the sequence scores above the one the dynamic programme picks under the current counts |
| WithSegments.PendingDone | include/esapp/internal/with_segments.hpp:255-260 | once every start up to `r` is pushed, `fv[r]` and `fs[r]` hold the best value and choice of the table |
| WithSegments.ReadPositions | include/esapp/internal/with_segments.hpp:276-281 | following `fs` back from the end and reversing gives the chain of cuts, then `n` |
| WithSegments.Policy.constructor | include/esapp/internal/with_segments.hpp:86-93 | `lcp_` is 0, every total is 0, the trie holds only its root and no sequence is stored |
| WithSegments.Policy.Update | include/esapp/internal/with_segments.hpp:95-118 | with nothing inserted a new empty segmentation is stored and `lcp_` reset; otherwise the suffix of `num_inserted - 1` terms is counted with `max(lcp, lcp_next)`, which becomes `lcp_`, and after the last term the whole string is counted and `lcp_` reset |
| WithSegments.Policy.UpdateCounts | include/esapp/internal/with_segments.hpp:151-185 | the trie counters and totals become exactly `Counts` of the old ones |
| WithSegments.Policy.RaiseTotals | include/esapp/internal/with_segments.hpp:165-184 | the three totals become those `Counts` gives |
| WithSegments.Policy.WalkAndMark | include/esapp/internal/with_segments.hpp:157-177 | `f` grows along the whole path, `avl` from depth `lcp_lf` on, and `avr` on the last node only when marked |
| WithSegments.Policy.Raise | include/esapp/internal/with_segments.hpp:180-184 | every total of the lengths `lo .. hi` rises by one and no other |
| WithSegments.Policy.MarkLast | include/esapp/internal/with_segments.hpp:173-176 | `++node->avr`: only the last node's right variety changes |
| WithSegments.Policy.WalkPath | include/esapp/internal/with_segments.hpp:159-171 | the walk ends on the node of the whole path; `f` grows on every node, `avl` from depth `lcp_lf` on, `avr` only on created nodes |
| WithSegments.Policy.WalkStep | include/esapp/internal/with_segments.hpp:162-168 | one step reaches the child by the term and grows its counters as the walk does |
| WithSegments.Policy.Reach | include/esapp/internal/with_segments.hpp:163 | `get(c, true)` returns the child, created with every counter at 1 when missing; nothing else changes |
| WithSegments.Policy.NextMinLen | include/esapp/internal/with_segments.hpp:217-229 | `min_len` is the distance to the first previous word end past `i`, one less when a previous word starts at `i`, and the `seg_pos` pair moves on as it should |
| WithSegments.Policy.NextNode | include/esapp/internal/with_segments.hpp:235-238 | the node after one more term exists exactly when that word is in the trie, and stays missing once a step is missing |
| WithSegments.Policy.ScoreWord | include/esapp/internal/with_segments.hpp:240-254 | there is no score (`continue`) exactly when the word is not in the trie and is shorter than `min_len`; otherwise the score is the word's score under the current counts |
| WithSegments.Policy.PushRow | include/esapp/internal/with_segments.hpp:255-260 | one update of row `i + m` moves the rows one word on towards the table |
| WithSegments.Policy.PushFrom | include/esapp/internal/with_segments.hpp:231-261 | the inner loop leaves rows below `i` alone and takes each later row from the pushes of starts below `i` to those of starts up to `i` |
| WithSegments.Policy.Fill | include/esapp/internal/with_segments.hpp:208-262 | `fs` ends up holding the choices of the best-segmentation table for the sequence |
| WithSegments.Policy.WalkSegs | include/esapp/internal/with_segments.hpp:264-289 | the restore or record loop walks every word of the segmentation in the trie, in order, touching `f` only |
| WithSegments.Policy.Record | include/esapp/internal/with_segments.hpp:269 | `trie_.increase` or `trie_.decrease` of one word changes only `f`, along the word |
| WithSegments.Policy.SegmentSequence | include/esapp/internal/with_segments.hpp:204-290 | the best segmentation under the old counts replaces the stored one; the old words are restored in the trie and the new ones recorded; `avl`, `avr` and `lcp_` stay |
| WithSegments.Policy.NumSegs | include/esapp/internal/with_segments.hpp:137-142 | `num_segs(i)` is the number of words of sequence `i` |
| WithSegments.Policy.SegPos | include/esapp/internal/with_segments.hpp:144-149 | `seg_pos(i, k)` is positive and at most the length; the words up to `k` make up the sequence up to it; only the last word ends at the end |
| WithSegments.Policy.Optimize | include/esapp/internal/with_segments.hpp:120-135 | after the passes every sequence is segmented; the trie holds the counts before any word was recorded less the words recorded now; no pass leaves `avl`, `avr` or `lcp_` changed; in the last pass, which started from `prev`, each sequence `j` received `BestSegPositions` under `views[j]`, the counts at its turn (the base counts less the new words of the sequences before `j` and the old words of the rest) |
| WithSegments.Policy.Pass | include/esapp/internal/with_segments.hpp:128-131 | a pass segments every stored sequence and keeps the trie at the base counts less the recorded words; sequence `j` receives `BestSegPositions` under the counts at its turn, which hold the new words of the sequences before it and the old words of the rest |
| WithSegments.Policy.Resegment | include/esapp/internal/with_segments.hpp:129-130 | segmenting sequence `j` changes only its segmentation, to `BestSegPositions` under the counts of that moment, and keeps the trie at the base counts less the recorded words |
| WithSegments.Policy.Repeat | include/esapp/internal/with_segments.hpp:126-134 | from the first pass on, every sequence ends segmented and, in the last pass, each sequence received `BestSegPositions` under the counts at its turn |
| WithSegments.TurnStep | include/esapp/internal/with_segments.hpp:128-131 | segmenting sequence `j` under the counts of its turn keeps the earlier turns of the pass recorded and records turn `j` |
| WithSegments.TurnKept | include/esapp/internal/with_segments.hpp:128-131 | a turn stays recorded when a later sequence is segmented again |
| WithSegments.TurnNow | include/esapp/internal/with_segments.hpp:128-131 | the counts at sequence `j`'s turn are the base counts less the new words of earlier sequences and the old words of the rest |
| WithSegments.TurnsSegmented | include/esapp/internal/with_segments.hpp:128-131 | after `j` turns the first `j` sequences hold complete segmentations |

## Left out

- SuffixArrays.SuffixArray.Build: the suffix array is computed by the reference sort `SuffixSpec.SortSuffixes` (strictly sorted and a permutation, and the only such array), not by SA-IS. The two differ when the text's last position is not LMS. On `[1, 0, 0]` (a string followed by an empty one), `gen_sa` leaves `[SIZE_MAX, 1, 0]` while `Build` gives `[2, 1, 0]` (see Findings). The SA-IS stages are modelled and proved one by one in `Sais`.
- Sufarr.SuffixArray.Build: the same replacement of `gen_sa` by the reference sort, for the sentinel variant of src/sufarr.cpp.
- Sufarr.SuffixArray.Construct: requires a non-empty text. `construct()` dereferences `max_element` of the text, which is undefined on an empty one (src/sufarr.cpp:46-49).
- Sufarr.SuffixArray.WithAlphabet: the two-argument constructor never stores `s` (src/sufarr.cpp:28-31). The model builds the arrays of the empty text, which is what the source does up to its undefined reads.
- Sufarr.SuffixArray.LowerBound: requires a non-empty text, as `find` on an empty text reads outside `sa_`; the same holds for Sufarr.SuffixArray.UpperBound.
- Sufarr.SuffixArray.LowerBound: when the probed suffix is a proper prefix of the pattern, the source reads `s_` one past its end (src/sufarr.cpp:70, 82, 86, 96), which is undefined. The model (`Sufarr.SymbolAt`) gives that read a value below every id, the virtual sentinel. The same holds for Sufarr.SuffixArray.UpperBound and Sufarr.SuffixArray.FindAsWritten.
- Sais.Induce: returns `ok == false` where the source would write outside `sa` or `bkt`, instead of modelling the out-of-bounds write.
- Segmenters.Ext: a `double` score is minus infinity or finite. +infinity and NaN, which the source can produce from `log(0)` of a zero average or `0/0`, are not modelled.
- The entropy, score, `pow` and `log` formulas are function parameters, because floating-point arithmetic is left out. Only the order of evaluation and which counters feed them are modelled. The `0/0` that `update_hsp1` and `update_fm` of src/trie.cpp can compute belongs to these formulas.
- The character classes `iswalnum`, `iswspace`, `isalnum` and `isspace` are locale-dependent and are parameters (`Tokens.Class`). `<cctype>` `isalnum`/`isspace` on a wide character above 255 (include/tok.hpp, src/tok.cpp:42-48) is undefined behaviour and is not modelled.
- Seg.Segmenter.SplitRange: requires a non-empty range. seg.cpp:86-88 runs past the end on an empty one. Seg.Segmenter.Fit requires non-empty sequences for the same reason.
- Tries.FreqTrie.Decrease: requires every node the walk steps on to exist. `node->children[c]` in src/trie.cpp:52-66 inserts a null child and dereferences it when one is missing. The same holds for Tries.DecreaseWalk.
- Tries.FreqTrie.Clear: `FreqTrieNode::clear` (src/trie.cpp:423-432) deletes the children but leaves their dangling entries in the map. The model removes them.
- Counting.StringCounter.Fit: the per-length totals of the `calc_avg` sweep in src/count.cpp are a parameter. Only their averaging is modelled there. The full sweep is modelled for src/string_counter.cpp in `StringCounters`.
- WithSegments.Policy.Optimize: `recover_sequence` (include/esapp/internal/with_segments.hpp:187-202) walks the host's LF mapping, which belongs to the desa index types. The recovered sequences are a parameter (`seqs`).
- WithSegments.Policy.Optimize: each sequence's new segmentation is `BestSegPositions` under the counts at its turn, which `BestSegPositionsOptimal` shows to score highest under those counts; the contract speaks of the last pass only (earlier passes are overwritten), and convergence of the passes is not stated, as the source does not promise it.
- Segmentation.Segmenter.FitAndSegment: on a string that is not UTF-8 the model reports the error and leaves the counter as it was, because every string is tokenized before the counter is fitted. The source feeds the counter lazily (src/segmenter.cpp:32-43), so it would already have appended the CJK tokens read before the bad byte, and its suffix arrays would be stale.
- Segmentation.Segmenter.FitAndSegment: requires a counter that holds no string yet. Segmentation.Segmenter.SegmentTokenized and Segmentation.Segmenter.FitFresh require the same. A second `fit_and_segment` on the same segmenter appends to the old text (src/esapp.cpp:30-34). Its word loop then reads the cut lists from the start of `prev_segs` (src/segmenter.cpp:76, 89), which holds the cuts of the strings fitted earlier. Repeated fitting is not modelled.
- Assertions of the source (`assert(lcp_ <= n)`, the `update` event's `lcp == 0` checks, `seg_pos > i`) are preconditions of the corresponding members.
- Vectors the source fills by index (`fv`, `fs`, `sp1l`, `sp1r`) are sequences or arrays, whichever the algorithm updates in place.
- EncStr.EndOffsetMultistring.PushBack: ids are numbered on from the map size with no width bound. The width of `value_type` is declared in src/encoded_multistring.hpp, so a wrap-around such as the one listed under Findings for src/encstr.cpp is not modelled for this class.
- src/encoded_multistring.hpp is not part of this model. The encoded multistring is modelled from src/encstr.cpp and src/encoded_multistring.cpp.
- Iterator plumbing (`iterator_facade` and adaptor bases, `operator->`, copy and comparison boilerplate), encoding conversion between wide strings and UTF-8, the Python and other language bindings, and the pimpl wrappers of the public API are not modelled. They only forward to the modelled members.

## Findings

| source | as written | input that shows it | evidently intended | confidence | as-written member | corrected member |
|---|---|---|---|---|---|---|
| src/encstr.cpp:37 | a new term's id is a 16-bit counter started from the map size, so the 65537th distinct term (counting the boundary) gets id 0, the boundary symbol | a map holding 65536 ids, then one unseen term | fail loudly instead of wrapping: ids stay distinct and never reuse 0 | not executed | EncStr.AssignAsWritten, EncStr.AssignAsWrittenWraps | EncStr.EncodedMultistring.Append |
| src/sufarr.cpp:62-75 | `find` bisects the open interval between ranks 1 and `len_s`, so it never inspects rank 1 or rank `len_s` | text `[1, 0]` and pattern `[1]`, whose only occurrence is at rank 2 = `len_s` | report a rank whenever some suffix starts with the pattern | not executed | Sufarr.SuffixArray.FindAsWritten, Sufarr.FindAsWrittenMisses | Sufarr.SuffixArray.Find |
| src/count.cpp:126 | `get_hr` guards with `j + n < sa_.size()`, which is `len(s) + 1`, and so reads `s_[len(s)]` | text `[1]`, occurrence at 0 of length 1 | take the boundary at the end of the text | not executed | Counting.RightReadAsWritten, Counting.RightReadPastEnd | Counting.RightScan |
| src/segmenter.cpp:145-149 | cut positions in code points become byte offsets as `begin + 3 * pos`, which assumes 3-byte characters | a 4-byte overlong encoding of U+4E00 followed by its 3-byte encoding, cut after the first character | cut at the byte end of each code point, so every word decodes | not executed | SegmentWords.SegmentSequenceAsWritten, SegmentWords.OverlongMisplacesCut | SegmentWords.SegmentSequence |
| src/suffix_array.cpp:190-206 | stage 3 places only LMS positions and their induced predecessors, so a last position that is not LMS is never written | `[1, 0, 0]`: a string followed by an empty string | a suffix array listing every position | not executed | Sais.PlaceLmsAndInduce, Sais.LastNotLmsAfterEmptyString | SuffixSpec.SortSuffixes |
