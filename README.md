# A verified model of the ml-cpp core

This project models, in Dafny, the self-contained core of the ml-cpp machine
learning library:

- the trained-model object model of an inference model definition: trees held as
  vectors of nodes, ensembles of trees, the pruning of unused features, the ensemble
  setters and the operation estimates. Also the JSON writer events each
  `addToJsonStream` method issues, and the compressed export that cuts the compressed
  definition into numbered documents;
- time-series decomposition restore and persist by tag dispatch;
- the RapidXml state persist inserter, as a growing arena of nodes with a cursor and
  a length estimate, and its JSON sibling's rendering of the same inserts;
- the CSV output writer: field quoting, header building, and row writing through a
  work buffer;
- integer alignment, gcd and lcm with C++'s truncating division;
- the seed-threading checksums, with the hash primitives as parameters;
- the word dictionary's line parse and case-insensitive lookup, and the Python script
  that builds the dictionary file;
- Windows shell argument quoting;
- the boosted-tree column layout and the in-place zeroing of column ranges;
- the category examples collector;
- the wildcard pattern set.

Each core source file is one module, except that `CInferenceModelDefinition.cc` is
split into `InferenceModel` (data and pruning), `ModelJson` (serialisation) and
`CompressedExport` (chunking). `JsonTokens` is the writer-event grammar. It is a stack
machine that accepts the tokens of every JSON value and rejects an object key that is
not followed by a value. Every serialiser is proved to emit the tokens of a JSON value
(with the weighted_mode layout corrected, see Findings).
The converse, that every accepted token stream is the tokens of some value, is not
proved. `Util` and `PersistenceTag` hold shared vocabulary.

Objects whose state the source updates in place are classes with `modifies` clauses:

- the XML and JSON inserters, the CSV writer, the collector, the pattern set and the
  dictionary;
- trees and ensembles, and the decomposition traverser;
- the row buffer, which is an `array<real>`.

Each such method is proved against a function of the old state, and the properties
are lemmas about those functions.

I/O is not modelled. Reading the dictionary file, and the input and output files of
the script, become sequences of lines. Text printing becomes token or character
sequences. Hash primitives and floating-point formatting become parameters or opaque
values.

## Model

| member | source | states |
|---|---|---|
| IntegerTools.TModBounds | include/maths/common/CIntegerTools.h:47-49 | C++'s truncating remainder satisfies v == (v / a) * a + v % a, is smaller than the divisor in magnitude and has the sign of v |
| IntegerTools.TModZeroIff | include/maths/common/CIntegerTools.h:47-49 | the truncating remainder is zero exactly when the Euclidean one is, so aligned does not depend on the division convention |
| IntegerTools.AlignedIff | include/maths/common/CIntegerTools.h:46-50 | aligned holds iff the alignment is 0 or the value is a multiple of it |
| IntegerTools.FloorIsLargestMultipleBelow | include/maths/common/CIntegerTools.h:71-78 | for a positive alignment, floor returns a multiple of it that is at most the value and more than the value minus the alignment, for negative values too |
| IntegerTools.FloorZero | include/maths/common/CIntegerTools.h:58-97 | with alignment 0, floor, ceil and strictInfimum all return the value unchanged |
| IntegerTools.CeilIsSmallestMultipleAbove | include/maths/common/CIntegerTools.h:57-64 | for a positive alignment, ceil returns the smallest multiple of it that is not below the value |
| IntegerTools.StrictInfimumIsLargestMultipleStrictlyBelow | include/maths/common/CIntegerTools.h:86-97 | for a positive alignment, strictInfimum returns the largest multiple strictly below the value, including when the value is itself a multiple |
| IntegerTools.Gcd | include/maths/common/CIntegerTools.h:105-111 | Euclid's algorithm with the larger argument first returns a common divisor of both arguments |
| IntegerTools.GcdGreatest | include/maths/common/CIntegerTools.h:99-111 | every common divisor of a and b divides gcd(a, b) |
| IntegerTools.GcdSymmetric | include/maths/common/CIntegerTools.h:105-111 | gcd is symmetric, and gcd(a, 0) == gcd(0, a) == a |
| IntegerTools.Lcm | include/maths/common/CIntegerTools.h:133-137 | lcm is a common multiple of both arguments, and it is 0 exactly when one argument is 0 |
| IntegerTools.LcmLeast | include/maths/common/CIntegerTools.h:132-137 | lcm divides every common multiple of a and b, so it is the least one |
| IntegerTools.GcdLcmProduct | include/maths/common/CIntegerTools.h:133-137 | for unequal arguments, gcd(a, b) * lcm(a, b) == a * b |
| IntegerTools.GcdVector | include/maths/common/CIntegerTools.h:114-130 | the loop over a vector computes gcd's left fold: 0 for an empty vector and the element itself for a single one |
| IntegerTools.LcmVector | include/maths/common/CIntegerTools.h:140-153 | the loop over a vector computes lcm's left fold: 0 for an empty vector and the element itself for a single one |
| IntegerTools.GcdAllCorrect | include/maths/common/CIntegerTools.h:113-130 | the gcd of a vector divides every element, and every common divisor of the elements divides it |
| IntegerTools.LcmAllMultiple | include/maths/common/CIntegerTools.h:139-153 | every element of a vector divides the vector's lcm |
| IntegerTools.LcmAllLeast | include/maths/common/CIntegerTools.h:139-153 | the lcm of a non-empty vector divides every common multiple of its elements, so it is the least one |
| Checksum.Dispatch | include/maths/common/CChecksum.h:116-358 | the dispatch on every overload family (integral, string, stored string, universal hash, optional or pointer, pair, Eigen vectors, annotated vector, member checksum or hash, container, vector of bool, unordered set and map) computes the checksum function Check; for a sparse vector Check is the corrected chaining `SparseFold`, not the as-written restart from the seed recorded under Findings |
| Checksum.DispatchDense | include/maths/common/CChecksum.h:210-223 | the dense-vector loop chains all coefficients but the last and then the last one, which is the in-order fold; an empty vector gives the seed back |
| Checksum.DispatchSparse | include/maths/common/CChecksum.h:225-237 | the corrected sparse-vector loop chains each stored entry's index and then its value into the running result |
| Checksum.DispatchEntry | include/maths/common/CChecksum.h:233-234 | one sparse entry is checksummed as its index and then its value |
| Checksum.DispatchContainer | include/maths/common/CChecksum.h:288-297 | a container's checksum threads the running result through its elements in iteration order |
| Checksum.DispatchUnorderedSet | include/maths/common/CChecksum.h:308-324 | an unordered set is checksummed as the container of its elements in sorted order |
| Checksum.DispatchUnorderedMap | include/maths/common/CChecksum.h:326-344 | an unordered map is checksummed as the container of its key/value pairs sorted by key |
| Checksum.CalculateArray | include/maths/common/CChecksum.h:374-381 | the C-array overload chains the elements in order and equals the container fold over them |
| Checksum.CalculateNested | include/maths/common/CChecksum.h:383-390 | the nested-array overload chains every row in order, which is the fold over the flattened rows |
| Checksum.FoldConcat | include/maths/common/CChecksum.h:288-297 | checksumming a concatenation equals checksumming the second part from the checksum of the first |
| Checksum.ContainerSnoc | include/maths/common/CChecksum.h:288-297 | appending an element to a container checksums that element from the checksum of the rest |
| Checksum.UnorderedSetOrderIndependent | include/maths/common/CChecksum.h:308-324 | two iteration orders of the same unordered set give the same checksum, which makes it stable over persist and restore |
| Checksum.UnorderedMapOrderIndependent | include/maths/common/CChecksum.h:326-344 | two iteration orders of the same unordered map, with distinct keys, give the same checksum |
| Checksum.SparseChainsAllEntries | include/maths/common/CChecksum.h:225-237 | the corrected sparse overload equals the container checksum of the (index, value) pairs, so every stored entry affects the result |
| Checksum.SparseAsWrittenLastOnly | include/maths/common/CChecksum.h:231-236 | as written, the loop restarts from the seed on each entry, so the result depends only on the last stored entry |
| Checksum.SparseAsWrittenCollides | include/maths/common/CChecksum.h:231-236 | as written, the sparse vectors {0: x, 1: z} and {0: y, 1: z} collide for any x and y, while the corrected overload threads x into the second entry's seed |
| Crossref.SplitTwo | lib/core/crossref.py:30-31 | splitting on '@' gives two parts only when the line holds exactly one separator, and then the line is the first part, '@' and the second part |
| Crossref.SplitTwoExact | lib/core/crossref.py:30-31 | a line with exactly one separator always splits around it |
| Crossref.EntryOf | lib/core/crossref.py:29-33 | a Moby line contributes an entry exactly when its stripped text splits into two parts |
| Crossref.TablePresent | lib/core/crossref.py:28-35 | a word is in the lookup table iff some Moby line gives it, lower-cased |
| Crossref.TableFirstWins | lib/core/crossref.py:34-35 | the code kept for a word is the one from the first line that gives it; later duplicates are ignored |
| Crossref.CrossReference | lib/core/crossref.py:26-89 | the script's two loops write, for the SCOWL words in order, the output built from the table of the Moby lines |
| Crossref.ReplaceFirst | lib/core/crossref.py:46-56 | str.replace with count 1 keeps the length of the string |
| Crossref.RemoveAll | lib/core/crossref.py:58-68 | str.replace(x, '') leaves no x behind |
| Crossref.ReplaceFirstCounts | lib/core/crossref.py:46-58 | replacing the first x by y moves one occurrence from x to y when x is present and changes no other count |
| Crossref.RemoveAllLength | lib/core/crossref.py:58-68 | removing every x shortens the string by the number of x and keeps every other character present or absent |
| Crossref.PluralCollapseShape | lib/core/crossref.py:55-58 | for a stem code with an N, the plural rewrite leaves no '&', contains a p, and is one shorter when there was also an A |
| Crossref.AdjectiveCollapseShape | lib/core/crossref.py:68-78 | the 'ed' and 'ing' rewrite leaves no '&'; it keeps a code with no N, p or A unchanged, and otherwise merges those letters into one A |
| Crossref.ExactCode | lib/core/crossref.py:40-49 | a word in the table gets its stored code, with a leading D turned into I when the word starts with 'a' |
| Crossref.PluralCode | lib/core/crossref.py:50-59 | a plural of a known stem gets the stem's code with its first A turned into p when it has no N, and otherwise with N and A merged into one p |
| Crossref.StemPreference | lib/core/crossref.py:60-79 | the 'ed' rule prefers the word minus "ed" over the word minus "d", the 'ing' rule prefers the bare stem over the stem plus 'e', and the 'ed' rule applies only to a word not in the table that ends in "ed" |
| Crossref.FallbackCode | lib/core/crossref.py:80-89 | a word that no rule matches gets p exactly when it ends in s but not in "es" or "ss", and '?' otherwise |
| Crossref.OneLinePerWord | lib/core/crossref.py:37-89 | the output splits into exactly one line word@code per input word, in input order |
| Crossref.DeriveCodeNoNewline | lib/core/crossref.py:40-89 | no rule's rewrite introduces a newline into a code |
| Crossref.LineLoads | lib/core/crossref.py:37-89 | a written line word@code loads back into the word dictionary as that word, with the part of speech that the code's first letter names |
| Crossref.FallbackLineLoads | lib/core/crossref.py:80-89 | a fallback line loads back as a plural or as an unknown part of speech |
| WordDictionary.KnownCodes | lib/core/CWordDictionary.cc:30-70 | a part-of-speech code is known exactly when it is one of the sixteen listed codes |
| WordDictionary.SynonymCodes | lib/core/CWordDictionary.cc:38-47 | N, h and o all mean noun, and V, t and i all mean verb, and no other code means either |
| WordDictionary.CanonicalCodeRoundTrip | lib/core/CWordDictionary.cc:30-70 | every part of speech has a code that maps back to it, and NotInDictionary has none |
| WordDictionary.TrimLeft | lib/core/CWordDictionary.cc:113 | the left-trimmed string is no longer than the string and has no white space at the start |
| WordDictionary.TrimLeftSuffix | lib/core/CWordDictionary.cc:113 | the left-trimmed string is a suffix of the string and everything dropped before it is white space |
| WordDictionary.TrimRight | lib/core/CWordDictionary.cc:113 | the right-trimmed string is no longer than the string, has no white space at the end and keeps the first character |
| WordDictionary.TrimRightPrefix | lib/core/CWordDictionary.cc:113 | the right-trimmed string is a prefix of the string and everything dropped after it is white space |
| WordDictionary.LeadingSpace | lib/core/CWordDictionary.cc:113 | the number of white-space characters the line starts with: all before it are white space and the next is not |
| WordDictionary.Trim | lib/core/CWordDictionary.cc:113 | a trimmed non-empty line starts and ends with a non-white-space character; which characters are kept is stated by TrimIsSlice |
| WordDictionary.TrimIsSlice | lib/core/CWordDictionary.cc:113 | the trimmed line is the slice after the leading white space, everything dropped before and after it is white space, and a non-empty result has no white space at either end: exactly the leading and trailing white space is removed |
| WordDictionary.FindChar | lib/core/CWordDictionary.cc:117 | find returns the first position of the character, or npos when it does not occur |
| WordDictionary.ParseLineCases | lib/core/CWordDictionary.cc:112-138 | a line is skipped iff, once trimmed, it is empty, has no '@', starts with '@', ends right after it, or has an unknown code; otherwise the stored word is what precedes the first '@' and its part of speech comes from the next character |
| WordDictionary.LoadAllStoresParts | lib/core/CWordDictionary.cc:131-138 | the loaded map never stores NotInDictionary |
| WordDictionary.LoadAllPresent | lib/core/CWordDictionary.cc:111-166 | a word is in the dictionary iff some line defines it, ignoring case |
| WordDictionary.LoadAllLastWins | lib/core/CWordDictionary.cc:137-138 | when several lines define the same word, the dictionary keeps the part of speech from the last of them |
| WordDictionary.Dictionary.constructor | lib/core/CWordDictionary.cc:102-145 | the constructor's loop over the file's lines builds exactly the map that the lines define |
| WordDictionary.Dictionary.PartOf | lib/core/CWordDictionary.cc:90-100 | partOfSpeech returns NotInDictionary exactly when isInDictionary is false |
| WordDictionary.HashOf | lib/core/CWordDictionary.cc:151-160 | the case-insensitive hash stays within a 64-bit size_t |
| WordDictionary.HashIgnoreCase | lib/core/CWordDictionary.cc:151-160 | the hash loop computes hash * 17 + tolower(c) over the characters, wrapping at 2^64 |
| WordDictionary.HashOfLower | lib/core/CWordDictionary.cc:151-160 | the hash of a string equals the hash of its lower-cased form |
| WordDictionary.EqualIgnoreCaseHashesEqual | lib/core/CWordDictionary.cc:151-166 | strings that are equal up to case have equal hashes, as the hashed map requires of its hash and equality |
| WordDictionary.EqualIgnoreCaseEquivalence | lib/core/CWordDictionary.cc:162-166 | equality up to case is reflexive, symmetric and transitive |
| ShellArgQuoter.Quote | lib/core/CShellArgQuoter_Windows.cc:20-78 | quote returns "" for the empty argument, a short option such as -x or /x unchanged, a plain double-quoted copy when the argument holds no quote and does not end in a backslash, and otherwise ^" plus the argument with every cmd.exe metacharacter caret-escaped plus ^" |
| ShellArgQuoter.EscapeConcat | lib/core/CShellArgQuoter_Windows.cc:57-73 | escaping is character by character, so escaping a concatenation concatenates the escaped parts |
| ShellArgQuoter.EscapeLength | lib/core/CShellArgQuoter_Windows.cc:57-73 | escaping adds exactly one caret per metacharacter |
| ShellArgQuoter.QuotedLength | lib/core/CShellArgQuoter_Windows.cc:20-78 | the quoted length in each case: 2 for the empty argument, the argument's length for an option, two more when plainly quoted, and four more plus one per metacharacter when escaped |
| ShellArgQuoter.UnescapeEscape | lib/core/CShellArgQuoter_Windows.cc:57-73 | the prompt's removal of carets gives back exactly the escaped text |
| ShellArgQuoter.RecoverQuoted | lib/core/CShellArgQuoter_Windows.cc:20-78 | every argument can be read back from its quoted form |
| ShellArgQuoter.QuoteInjective | lib/core/CShellArgQuoter_Windows.cc:20-78 | distinct arguments quote to distinct strings |
| BoostedTreeUtils.HyperparameterCount | include/maths/analytics/CBoostedTreeUtils.h:48-61 | there are ten hyperparameters; NUMBER_HYPERPARAMETERS is one more than the last ordinal, and the ordinals number the hyperparameters 0 to 9 without repeats |
| BoostedTreeUtils.MissingSplit | include/maths/analytics/CBoostedTreeUtils.h:73-76 | the split used for missing values lies past every candidate split's index |
| BoostedTreeUtils.TriangleSizeIsSum | include/maths/analytics/CBoostedTreeUtils.h:78-81 | n * (n + 1) / 2 divides exactly, and the upper-triangle size is 1 + 2 + ... + n |
| BoostedTreeUtils.TriangleFitsSquare | include/maths/analytics/CBoostedTreeUtils.h:78-89 | the upper triangle of the Hessian fits in the n * n columns allocated for the curvature |
| BoostedTreeUtils.ExtraColumnsShape | include/maths/analytics/CBoostedTreeUtils.h:83-89 | extraColumns asks for n prediction columns, n gradient columns aligned to 16 bytes, n * n curvature columns and one weight column, with every column but the gradient unaligned |
| BoostedTreeUtils.DerivativesCoverCurvature | include/maths/analytics/CBoostedTreeUtils.h:102-129 | when the curvature columns directly follow the gradient, the combined derivatives view is the gradient followed by the curvature view, and it stays inside the allocated columns |
| BoostedTreeUtils.ZeroRangeIdempotent | lib/maths/analytics/CBoostedTreeUtils.cc:23-55 | zeroing the same columns twice is the same as zeroing them once |
| BoostedTreeUtils.ZeroRangeCommutes | lib/maths/analytics/CBoostedTreeUtils.cc:23-55 | zeroing disjoint column ranges in either order gives the same row |
| BoostedTreeUtils.ZeroColumns | lib/maths/analytics/CBoostedTreeUtils.cc:24-54 | the shared write loop zeroes len columns from start and nothing else |
| BoostedTreeUtils.ZeroPrediction | lib/maths/analytics/CBoostedTreeUtils.cc:23-27 | zeroPrediction zeroes the n prediction columns and nothing else |
| BoostedTreeUtils.ZeroLossGradient | lib/maths/analytics/CBoostedTreeUtils.cc:29-33 | zeroLossGradient zeroes the n gradient columns and nothing else |
| BoostedTreeUtils.ZeroLossCurvature | lib/maths/analytics/CBoostedTreeUtils.cc:50-55 | zeroLossCurvature zeroes the triangle-size curvature columns and nothing else |
| BoostedTreeUtils.WriteExampleWeight | include/maths/analytics/CBoostedTreeUtils.h:149-152 | writeExampleWeight writes the weight column and nothing else |
| BoostedTreeUtils.ZeroedReadsZero | include/maths/analytics/CBoostedTreeUtils.h:91-129 | after zeroing, the prediction and curvature views read back all zeros |
| BoostedTreeUtils.WeightRoundTrip | include/maths/analytics/CBoostedTreeUtils.h:144-152 | the weight reads back what was written, and writing it leaves the prediction view unchanged |
| CategoryExamplesCollector.AddTo | include/model/CCategoryExamplesCollector.h:35-57 | an example goes in iff it is new and the set holds fewer than the maximum; the set stays sorted and free of repeats, gains exactly that example when added and is unchanged otherwise |
| CategoryExamplesCollector.Collector.constructor | include/model/CCategoryExamplesCollector.h:49-97 | a new collector has the given limit and no examples |
| CategoryExamplesCollector.Collector.Examples | include/model/CCategoryExamplesCollector.h:62-97 | the examples of a category are sorted, distinct and no more than the limit; a category never added to has none |
| CategoryExamplesCollector.Collector.NumberOfExamplesForCategory | include/model/CCategoryExamplesCollector.h:59-60 | the count is the size of the category's example set and never exceeds the limit |
| CategoryExamplesCollector.Collector.Add | include/model/CCategoryExamplesCollector.h:53-57 | add reports whether the example went in, updates only that category's set as the flat-set insert does, and leaves every other category unchanged |
| CategoryExamplesCollector.Collector.Clear | include/model/CCategoryExamplesCollector.h:70-71 | clear removes every category's examples |
| CategoryExamplesCollector.AddAll | include/model/CCategoryExamplesCollector.h:53-57 | a sequence of adds keeps the set sorted, never drops an example and never exceeds the limit |
| CategoryExamplesCollector.AddAllKeeps | include/model/CCategoryExamplesCollector.h:53-57 | after a sequence of adds, the set holds only examples that were there or were offered, and every offered example is kept whenever the set ends below the limit |
| CategoryExamplesCollector.AddAllGrows | include/model/CCategoryExamplesCollector.h:53-57 | a sequence of adds never shrinks the set |
| DecompositionSerialiser.Traverser.Next | lib/maths/time_series/CTimeSeriesDecompositionStateSerialiser.cc:87 | next moves to the following sibling and reports true when there is one, and otherwise stays put and reports false |
| DecompositionSerialiser.Restore | lib/maths/time_series/CTimeSeriesDecompositionStateSerialiser.cc:70-96 | the do-while over the siblings computes the outcome RestoreFrom gives: it fails at once on an unrecognised name, and after the last sibling it fails and resets the result unless exactly one name was recognised |
| DecompositionSerialiser.AllKnownOutcome | lib/maths/time_series/CTimeSeriesDecompositionStateSerialiser.cc:74-95 | when every sibling is recognised, the outcome depends only on how many there are: success with the last variant for exactly one, otherwise a reset result |
| DecompositionSerialiser.UnknownStops | lib/maths/time_series/CTimeSeriesDecompositionStateSerialiser.cc:83-86 | the first unrecognised sibling stops the restore there, leaving the result as the sibling before it set it |
| DecompositionSerialiser.RestoreSucceedsIff | lib/maths/time_series/CTimeSeriesDecompositionStateSerialiser.cc:70-96 | restore succeeds iff the cursor is on the last sibling and its name is one of the two tags, and the result then holds the variant that tag names |
| DecompositionSerialiser.FirstUnknown | lib/maths/time_series/CTimeSeriesDecompositionStateSerialiser.cc:83-86 | when any sibling is unrecognised, restore fails without resetting the result and without going past it |
| DecompositionSerialiser.TooManyResets | lib/maths/time_series/CTimeSeriesDecompositionStateSerialiser.cc:89-93 | two or more recognised siblings make restore fail and reset the result |
| DecompositionSerialiser.Inserter.InsertValue | lib/maths/time_series/CTimeSeriesDecompositionStateSerialiser.cc:123 | insertValue records one value under the tag's name for the chosen naming mode |
| DecompositionSerialiser.Inserter.InsertLevel | lib/maths/time_series/CTimeSeriesDecompositionStateSerialiser.cc:117-121 | insertLevel records one level under the tag's name for the chosen naming mode |
| DecompositionSerialiser.Persist | lib/maths/time_series/CTimeSeriesDecompositionStateSerialiser.cc:114-128 | persisting writes a level tagged "a" for the full decomposition, an empty value tagged "b" for the stub, and nothing for any other subclass |
| DecompositionSerialiser.PersistRestoreRoundTrip | lib/maths/time_series/CTimeSeriesDecompositionStateSerialiser.cc:70-128 | restoring what persist wrote, in either naming mode, succeeds with the same variant |
| PatternSet.PatternSet.constructor | lib/core/unittest/CPatternSetTest.cc:24-28 | a new set is empty |
| PatternSet.PatternSet.InitFromPatternList | lib/core/unittest/CPatternSetTest.cc:52-82 | initialising from a list always succeeds, duplicates included, and the set then holds the classified patterns of the list |
| PatternSet.PatternSet.InitFromJson | lib/core/unittest/CPatternSetTest.cc:24-71 | initFromJson succeeds exactly on an array of strings and then holds their patterns; invalid JSON, a non-array or a non-string item fail and leave the set empty |
| PatternSet.PatternSet.Clear | lib/core/unittest/CPatternSetTest.cc:202-212 | clear empties the set, so nothing is contained afterwards |
| PatternSet.FullIsGlob | lib/core/unittest/CPatternSetTest.cc:62-82 | a pattern with no '*' matches exactly the string itself |
| PatternSet.PrefixIsGlob | lib/core/unittest/CPatternSetTest.cc:84-110 | "w*" matches exactly the strings that start with w |
| PatternSet.SuffixIsGlob | lib/core/unittest/CPatternSetTest.cc:112-138 | "*w" matches exactly the strings that end with w |
| PatternSet.SubstringIsGlob | lib/core/unittest/CPatternSetTest.cc:140-174 | "*w*" matches exactly the strings in which w occurs |
| PatternSet.ClassifyIsGlob | lib/core/unittest/CPatternSetTest.cc:62-200 | for a pattern whose only '*' are at its ends, matching its classified kind agrees with wildcard matching |
| PatternSet.ClassifySubstring | lib/core/unittest/CPatternSetTest.cc:140-174 | a pattern with '*' at both ends is a substring pattern for the text between them |
| PatternSet.ClassifySuffix | lib/core/unittest/CPatternSetTest.cc:112-138 | a pattern with only a leading '*' is a suffix pattern for the rest |
| PatternSet.ClassifyPrefix | lib/core/unittest/CPatternSetTest.cc:84-110 | a pattern with only a trailing '*' is a prefix pattern for the rest |
| PatternSet.ContainsIsWildcardMatch | lib/core/unittest/CPatternSetTest.cc:42-212 | contains holds exactly when some pattern of the set glob-matches the string, and never for an empty set |
| PatternSet.MixedExample | lib/core/unittest/CPatternSetTest.cc:176-200 | with "foo", "foo*", "*foo" and "*foo*", the set contains "_foo_" and does not contain "fo" |
| CsvOutputWriter.EscapeBodyLength | lib/api/CCsvOutputWriter.cc:179-184 | inside quotes, each quote or escape character gains exactly one escape in front of it |
| CsvOutputWriter.FieldTextShape | lib/api/CCsvOutputWriter.cc:160-190 | a field is quoted iff it holds a separator, quote, record end or escape character; a quoted field grows by its two quotes plus one escape per quote or escape inside, and any other field is written unchanged |
| CsvOutputWriter.JoinSnoc | lib/api/CCsvOutputWriter.cc:82-143 | each field after the first is written after one separator |
| CsvOutputWriter.MergeNamesCorrect | lib/api/CCsvOutputWriter.cc:52-61 | the merged names are the given names, in order, followed by the extra names not already present and without repeats, and the set covers both lists |
| CsvOutputWriter.OverridesWin | lib/api/CCsvOutputWriter.cc:113-141 | an override value wins over the data value for the same field, and the data value is used only when there is no override |
| CsvOutputWriter.CsvWriter.constructor | lib/api/CCsvOutputWriter.cc:26-34 | a new writer has no output, no field names and an empty work record, and keeps the header flag, escape and separator; an unparsable separator is only logged |
| CsvOutputWriter.CsvWriter.ScanField | lib/api/CCsvOutputWriter.cc:167-174 | the first pass of appendField finds whether the field needs outer quotes |
| CsvOutputWriter.CsvWriter.AppendField | lib/api/CCsvOutputWriter.cc:160-190 | appendField extends the work record by the field's written form and changes nothing else |
| CsvOutputWriter.CsvWriter.AppendEscaped | lib/api/CCsvOutputWriter.cc:179-184 | the escaping loop extends the work record by the field with an escape before each quote or escape character |
| CsvOutputWriter.CsvWriter.AppendFields | lib/api/CCsvOutputWriter.cc:78-143 | appending the fields writes them joined by the separator |
| CsvOutputWriter.CsvWriter.SetFieldNames | lib/api/CCsvOutputWriter.cc:52-95 | fieldNames stores the merged names even when it fails; it fails, writing nothing, iff the merged list is empty, and otherwise builds the header record and writes it only when headers are wanted |
| CsvOutputWriter.CsvWriter.WriteRow | lib/api/CCsvOutputWriter.cc:97-150 | writeRow succeeds iff field names are set and every field has an override or a data value; it then writes exactly one record of those values, and on failure writes nothing |
| CsvOutputWriter.UnquotedRoundTrip | lib/api/CCsvOutputWriter.cc:187-189 | a field written unquoted reads back up to the next separator or the end |
| CsvOutputWriter.QuotedRoundTrip | lib/api/CCsvOutputWriter.cc:176-187 | with a separator that passes the constructor's check, the escaped body of a quoted field reads back as the field, up to its closing quote |
| CsvOutputWriter.FieldRoundTrip | lib/api/CCsvOutputWriter.cc:28-190 | with a separator that differs from the quote, escape and record-end characters, every written field reads back as itself |
| CsvOutputWriter.JoinRoundTrip | lib/api/CCsvOutputWriter.cc:28-88 | with such a separator, a joined record splits back into exactly its fields |
| CsvOutputWriter.RecordRoundTrip | lib/api/CCsvOutputWriter.cc:78-145 | a written record ends in the record end, and what precedes it reads back as the fields |
| JsonStatePersist.RenderOne | lib/core/unittest/CJsonStatePersistInserterTest.cc:52-65 | each insert becomes one member keyed by its tag's name in the chosen naming mode |
| JsonStatePersist.RenderMembers | lib/core/unittest/CJsonStatePersistInserterTest.cc:62-66 | the inserts become members one for one, in insertion order |
| JsonStatePersist.RenderStringsOnly | lib/core/unittest/CJsonStatePersistInserterTest.cc:62-65 | all persisted state renders to strings and objects: integers and characters become JSON strings |
| JsonStatePersist.ModesSameShape | lib/core/unittest/CJsonStatePersistInserterTest.cc:62-90 | the compact and readable renderings differ only in their keys |
| JsonStatePersist.CompactRendering | lib/core/unittest/CJsonStatePersistInserterTest.cc:45-67 | the test's inserts render in compact mode to {"a":"a","b":"25","c":{"a":x,"b":"z"}}, with x standing for the rendered float |
| JsonStatePersist.ReadableRendering | lib/core/unittest/CJsonStatePersistInserterTest.cc:69-91 | in readable mode the same inserts render with level1A, level1B, level1C, level2A and level2B as keys |
| JsonStatePersist.JsonInserter.constructor | lib/core/unittest/CJsonStatePersistInserterTest.cc:50-74 | the inserter opens the outer object when it is constructed |
| JsonStatePersist.JsonInserter.InsertValue | lib/core/unittest/CJsonStatePersistInserterTest.cc:52-53 | insertValue writes the tag's key and the value as a string |
| JsonStatePersist.JsonInserter.InsertLevel | lib/core/unittest/CJsonStatePersistInserterTest.cc:39-54 | insertLevel writes the tag's key, then a nested object holding what the level's body inserts |
| JsonStatePersist.JsonInserter.PerformAll | lib/core/unittest/CJsonStatePersistInserterTest.cc:52-54 | performing the inserts in order writes the members of their rendering |
| JsonStatePersist.JsonInserter.Close | lib/core/unittest/CJsonStatePersistInserterTest.cc:55-79 | the inserter going out of scope closes the outer object |
| JsonStatePersist.InsertedIsRendering | lib/core/unittest/CJsonStatePersistInserterTest.cc:49-57 | whatever is inserted, a fresh inserter closed afterwards has written the rendering's token stream, and that stream is one well-formed JSON document |
| JsonStatePersist.WriteTestState | lib/core/unittest/CJsonStatePersistInserterTest.cc:45-91 | the test's sequence of construct, three inserts and close writes the rendering of the test's inserts, and it is a well-formed document |
| JsonStatePersist.TestEvents | lib/core/unittest/CJsonStatePersistInserterTest.cc:50-55 | the events of the test's calls, in the order made, are the tokens of that rendering |
| StatePersistInserter.InitState | lib/core/CRapidXmlStatePersistInserter.cc:22-50 | construction leaves one root element under the document, with the cursor on it and a length estimate of at least 12 plus twice the root name's length |
| StatePersistInserter.InsertValueState | lib/core/CRapidXmlStatePersistInserter.cc:52-60 | insertValue appends one element and raises the length estimate, and the cursor stays where it was |
| StatePersistInserter.NewLevelState | lib/core/CRapidXmlStatePersistInserter.cc:78-87 | newLevel appends a child of the current level, moves the cursor onto it and raises the length estimate |
| StatePersistInserter.EndLevelState | lib/core/CRapidXmlStatePersistInserter.cc:89-98 | endLevel moves the cursor to the level's parent; with no parent it logs and changes nothing |
| StatePersistInserter.AppendedAsLastChild | lib/core/CRapidXmlStatePersistInserter.cc:54-81 | append_node makes the new element the last child of the current level and changes no other node's children |
| StatePersistInserter.RapidXmlInserter.constructor | lib/core/CRapidXmlStatePersistInserter.cc:22-29 | the constructor without attributes sets up the initial state |
| StatePersistInserter.RapidXmlInserter.WithAttributes | lib/core/CRapidXmlStatePersistInserter.cc:31-50 | the constructor with attributes adds them in the map's key order and costs 5 plus the name and value lengths for each |
| StatePersistInserter.RapidXmlInserter.InsertValue | lib/core/CRapidXmlStatePersistInserter.cc:52-60 | the method performs insertValue's state change |
| StatePersistInserter.RapidXmlInserter.NewLevel | lib/core/CRapidXmlStatePersistInserter.cc:78-87 | the method performs newLevel's state change |
| StatePersistInserter.RapidXmlInserter.EndLevel | lib/core/CRapidXmlStatePersistInserter.cc:89-98 | the method performs endLevel's state change |
| StatePersistInserter.RapidXmlInserter.Perform | lib/core/CRapidXmlStatePersistInserter.cc:52-98 | a tagged value or level, the latter followed by its contents and its end, is performed under the tag's name in the inserter's naming mode |
| StatePersistInserter.RapidXmlInserter.PerformAll | lib/core/CRapidXmlStatePersistInserter.cc:52-98 | a sequence of inserts is performed one after another |
| StatePersistInserter.ApplyLayout | lib/core/CRapidXmlStatePersistInserter.cc:52-98 | one insert appends its layout of elements, adds its cost to the estimate and leaves the cursor and the attributes unchanged |
| StatePersistInserter.ApplyAllLayout | lib/core/CRapidXmlStatePersistInserter.cc:52-98 | a sequence of inserts appends the concatenated layouts, and the estimate grows by the summed costs |
| StatePersistInserter.ApproxLenMonotone | lib/core/CRapidXmlStatePersistInserter.cc:59-83 | the length estimate never decreases, and balanced inserts leave the cursor where it was |
| StatePersistInserter.LayoutAllParents | lib/core/CRapidXmlStatePersistInserter.cc:54-86 | inside the appended elements, each hangs from the current level or from an earlier appended element |
| StatePersistInserter.ApplyAllWellFormed | lib/core/CRapidXmlStatePersistInserter.cc:52-98 | every sequence of inserts keeps the document a tree whose nodes come after their parents |
| StatePersistInserter.LayoutChildren | lib/core/CRapidXmlStatePersistInserter.cc:54-81 | the children the inserts give the current level are exactly the first elements of their layouts, in insertion order |
| StatePersistInserter.InsertOrder | lib/core/CRapidXmlStatePersistInserter.cc:52-98 | after a sequence of inserts, the current level's children are its old children followed by one element per insert, in insertion order, each named by its insert's tag |
| StatePersistInserter.InsertChildren | lib/core/CRapidXmlStatePersistInserter.cc:54-81 | once the inserts' elements follow the existing nodes, the level's child list is the old list extended by the inserts' top-level elements |
| StatePersistInserter.TopNames | lib/core/CRapidXmlStatePersistInserter.cc:54-80 | each insert's top-level element is named by its tag |
| StatePersistInserter.TestLayout | lib/core/unittest/CRapidXmlStatePersistInserterTest.cc:42-66 | the test's inserts place a, b and c under the root and the second level's a and z under c |
| StatePersistInserter.TestCost | lib/core/CRapidXmlStatePersistInserter.cc:52-87 | the test's inserts add the length-estimate increments of their values and levels |
| StatePersistInserter.CompactDocument | lib/core/unittest/CRapidXmlStatePersistInserterTest.cc:42-66 | in compact mode the test builds the tree root(a, b, c(a, b)) holding "a", "25", x and "z", with the root attributes attr1 and attr2 in key order and an estimate of 95 plus the length of x |
| StatePersistInserter.ReadableDocument | lib/core/unittest/CRapidXmlStatePersistInserterTest.cc:68-90 | in readable mode the same inserts build the same tree named level1A, level1B, level1C, level2A and level2B |
| ModelJson.Writer.constructor | lib/api/CInferenceModelDefinition.cc:413-418 | a new line writer has received no events |
| ModelJson.Writer.Emit | lib/api/CInferenceModelDefinition.cc:113-119 | each writer call appends exactly its one event |
| ModelJson.Writer.Write | lib/api/CInferenceModelDefinition.cc:893-904 | writing a parsed document appends that document's serialisation |
| ModelJson.PutScalar | lib/api/CInferenceModelDefinition.cc:136-139 | a key followed by a scalar adds one member holding that scalar |
| ModelJson.PutDoubleArray | lib/api/CInferenceModelDefinition.cc:110-120 | addJsonArray for doubles adds one member: the tag, then an array of the values in order |
| ModelJson.PutStringArray | lib/api/CInferenceModelDefinition.cc:122-132 | addJsonArray for strings adds one member: the tag, then an array of the values in order |
| ModelJson.AddNode | lib/api/CInferenceModelDefinition.cc:135-171 | a node writes its index and sample count, then for a split node its split members and for a leaf one leaf_value member, and the events are exactly those members' serialisation |
| ModelJson.AddSplit | lib/api/CInferenceModelDefinition.cc:141-162 | a split node writes split_feature, split_gain only when set, threshold, default_left, decision_type, left_child and right_child, in that order |
| ModelJson.AddSplitHead | lib/api/CInferenceModelDefinition.cc:143-148 | the split feature, then the gain only when it is set |
| ModelJson.AddSplitTail | lib/api/CInferenceModelDefinition.cc:149-162 | threshold, default_left, decision_type "lt", left_child and right_child, in that order |
| ModelJson.AddCommon | lib/api/CInferenceModelDefinition.cc:495-516 | every trained model writes feature_names, then classification_labels and classification_weights each only when set, then target_type as "classification" or "regression" |
| ModelJson.AddNodeObject | lib/api/CInferenceModelDefinition.cc:371-373 | each node is written as one complete object |
| ModelJson.AddTreeStructure | lib/api/CInferenceModelDefinition.cc:368-375 | the tree structure is an array of the nodes' objects, in order |
| ModelJson.AddTree | lib/api/CInferenceModelDefinition.cc:364-377 | a tree adds one "tree" member whose object holds the common members followed by tree_structure |
| ModelJson.AddAggregate | lib/api/CInferenceModelDefinition.cc:913-980 | each aggregator writes an object holding one object under its own tag, which holds the weights array; weighted_mode is written in the same layout (see Findings) |
| ModelJson.AddMembers | lib/api/CInferenceModelDefinition.cc:242-249 | the trained models array holds one object per member, each holding that member's "tree" member, in order |
| ModelJson.AddEnsemble | lib/api/CInferenceModelDefinition.cc:238-255 | an ensemble adds one "ensemble" member whose object holds the common members, then trained_models, then aggregate_output |
| ModelJson.AddModel | lib/api/CInferenceModelDefinition.cc:484-488 | the trained model adds its "tree" or "ensemble" member, whichever it is |
| ModelJson.PutRealMap | lib/api/CInferenceModelDefinition.cc:687-793 | a string-to-double map adds one member under its tag, an object with one member per entry in iteration order |
| ModelJson.PutStringMap | lib/api/CInferenceModelDefinition.cc:849-855 | a string-to-string map adds one member under its tag, an object with one member per entry in iteration order |
| ModelJson.AddEncodingMembers | lib/api/CInferenceModelDefinition.cc:680-856 | every encoding writes its field first; target mean then writes default_value, feature_name and target_map; frequency writes feature_name and frequency_map; one-hot writes hot_map |
| ModelJson.AddEncoding | lib/api/CInferenceModelDefinition.cc:474-479 | each ordinary preprocessor is one object holding its members in an object under its type tag |
| ModelJson.AddOpaque | lib/api/CInferenceModelDefinition.cc:893-904 | an opaque preprocessor contributes the elements of an array, a non-empty object itself, and nothing otherwise |
| ModelJson.AddCustomPreprocessors | lib/api/CInferenceModelDefinition.cc:470-472 | the custom preprocessors contribute their elements in order |
| ModelJson.AddEncodings | lib/api/CInferenceModelDefinition.cc:473-480 | the ordinary preprocessors contribute one object each, in order |
| ModelJson.AddPreprocessors | lib/api/CInferenceModelDefinition.cc:467-481 | the preprocessors array holds the custom contributions followed by the ordinary ones |
| ModelJson.AddDefinition | lib/api/CInferenceModelDefinition.cc:465-493 | a definition writes one object holding the preprocessors array and, only when a trained model is set, a trained_model object holding that model's member |
| ModelJson.LeafLayout | lib/api/CInferenceModelDefinition.cc:163-170 | a leaf writes three members with leaf_value last, and that value is an array exactly when the leaf holds more than one value |
| ModelJson.NodeRoundTrip | lib/api/CInferenceModelDefinition.cc:135-171 | every node object reads back as the node it was written from (a split node less its unwritten leaf values, a leaf less its unwritten split fields) |
| ModelJson.SplitRoundTrip | lib/api/CInferenceModelDefinition.cc:141-162 | the split members of a node read back as that node's split fields, the optional gain included |
| ModelJson.TreeLayout | lib/api/CInferenceModelDefinition.cc:364-377 | a tree writes one "tree" member whose object starts with feature_names, holds tree_structure with the nodes' objects, and holds classification_labels exactly when labels are set |
| ModelJson.PreprocessorsOrder | lib/api/CInferenceModelDefinition.cc:467-481 | the custom preprocessors' contributions come first and the ordinary preprocessors occupy the last positions, one each, in order |
| ModelJson.DefinitionIsDocument | lib/api/CInferenceModelDefinition.cc:413-493 | what a definition writes is one complete JSON text, and a line writer that has already written whole documents accepts it after them |
| ModelJson.WeightedModeAsWrittenRejected | lib/api/CInferenceModelDefinition.cc:934-939 | the events CWeightedMode writes (its tag key directly followed by the weights key) are rejected by a JSON writer in every state |
| ModelJson.AggregateAccepted | lib/api/CInferenceModelDefinition.cc:913-980 | the layout of the other three aggregators is a complete JSON value wherever a value may stand |
| CompressedExport.NumDocs | lib/api/CInferenceModelDefinition.cc:441-447 | the loop writes no document for an empty stream, and otherwise the least number of documents of at most MAX_DOCUMENT_SIZE characters that covers the stream |
| CompressedExport.Documents | lib/api/CInferenceModelDefinition.cc:441-462 | one document per piece; document i reads back as the number i, the i-th piece of the stream and the end marker exactly when it is the last |
| CompressedExport.ChunkEventsAreTokens | lib/api/CInferenceModelDefinition.cc:448-460 | the events each turn writes are exactly one JSON object holding a compressed_inference_model object with doc_num and definition, and eos only on the last |
| CompressedExport.AddToDocumentCompressed | lib/api/CInferenceModelDefinition.cc:433-463 | the events written are the documents for the pieces of the stream, in order, numbered from zero, with eos on the last one only |
| CompressedExport.DocumentStep | lib/api/CInferenceModelDefinition.cc:441-462 | each turn appends the next document after those before it, and nothing remains after it exactly when it is the last |
| CompressedExport.WriteChunk | lib/api/CInferenceModelDefinition.cc:448-460 | one turn's writer calls in order: the outer object, the tag, the inner object with doc_num and definition, eos with true when nothing remains, and the two closing brackets |
| CompressedExport.PiecesCorrect | lib/api/CInferenceModelDefinition.cc:441-447 | the pieces of a stream: none for an empty stream, each non-empty and at most the maximum size, all but the last exactly the maximum size, and together they concatenate back to the stream |
| CompressedExport.DocumentsNumbered | lib/api/CInferenceModelDefinition.cc:451-458 | document i carries the number i and the i-th piece, and eos exactly when it is the last |
| CompressedExport.ChunkRoundTrip | lib/api/CInferenceModelDefinition.cc:448-460 | reading a document back gives its number, its piece and whether it is the last |
| CompressedExport.ElementsAreDocuments | lib/api/CInferenceModelDefinition.cc:448-460 | documents written one after another are a sequence of complete JSON texts |
| CompressedExport.ExportIsDocument | lib/api/CInferenceModelDefinition.cc:433-463 | the compressed export is a sequence of complete JSON texts, and nothing is written for an empty stream |
| InferenceModel.OrderUpTo | lib/api/CInferenceModelDefinition.cc:389-397 | the features the scan has seen among the first nodes, in order of first appearance, each once |
| InferenceModel.OrderUpToMembers | lib/api/CInferenceModelDefinition.cc:389-397 | a feature is among those seen in the first nodes exactly when one of those nodes splits on it |
| InferenceModel.OrderMembers | lib/api/CInferenceModelDefinition.cc:389-397 | the order of first appearance holds exactly the features some split node uses |
| InferenceModel.OrderUpToPrefix | lib/api/CInferenceModelDefinition.cc:389-397 | scanning more nodes only extends the order of first appearance |
| InferenceModel.InOrder | lib/api/CInferenceModelDefinition.cc:390-396 | every split node's feature is in the order |
| InferenceModel.OrderBelow | lib/api/CInferenceModelDefinition.cc:398-402 | when every split feature indexes a feature name, so does every feature in the order |
| InferenceModel.RenumberedCorrect | lib/api/CInferenceModelDefinition.cc:387-397 | pruning leaves leaves untouched, changes only the split feature of a split node, gives the new features 0, 1, ..., k-1 in order of first appearance, and two split nodes share a new feature exactly when they shared the old one |
| InferenceModel.PrunedNamesCorrect | lib/api/CInferenceModelDefinition.cc:398-403 | the new feature names hold one name per distinct used feature, and each split node's new feature names what its old feature named |
| InferenceModel.PrunedInRange | lib/api/CInferenceModelDefinition.cc:398-403 | after pruning every split feature indexes one of the new names |
| InferenceModel.PruneIdempotent | lib/api/CInferenceModelDefinition.cc:387-405 | pruning what was already pruned changes neither the nodes nor the names |
| InferenceModel.SelectFeatureIndices | lib/api/CInferenceModelDefinition.cc:388-397 | the scan's emplace gives each new feature the next free index and a seen feature its earlier one, so the nodes come out renumbered in order of first appearance and the map is the one the scan builds |
| InferenceModel.SelectedUpToMatches | lib/api/CInferenceModelDefinition.cc:391-394 | after each node the map sends each seen feature to its position in the order |
| InferenceModel.SelectedUpToSize | lib/api/CInferenceModelDefinition.cc:391-394 | the map has one entry per feature seen so far, so its size is the next free index |
| InferenceModel.SelectedIndex | lib/api/CInferenceModelDefinition.cc:391-395 | the index the scan writes into a split node is its feature's position in the order of first appearance |
| InferenceModel.PlaceSelectedNames | lib/api/CInferenceModelDefinition.cc:398-403 | moving each used feature's name to its new index gives the pruned names, whatever order the map is iterated in |
| InferenceModel.SelectedInverse | lib/api/CInferenceModelDefinition.cc:398-402 | after the scan the map and the order of first appearance are inverse to each other |
| InferenceModel.Tree.SetFeatureNames | lib/api/CInferenceModelDefinition.cc:522-540 | sets the feature names and nothing else |
| InferenceModel.Tree.SetTargetType | lib/api/CInferenceModelDefinition.cc:526-528 | sets the target type and nothing else |
| InferenceModel.Tree.SetClassificationLabels | lib/api/CInferenceModelDefinition.cc:546-548 | sets the classification labels and nothing else |
| InferenceModel.Tree.SetClassificationWeights | lib/api/CInferenceModelDefinition.cc:554-556 | sets the classification weights and nothing else |
| InferenceModel.Tree.RemoveUnusedFeatures | lib/api/CInferenceModelDefinition.cc:387-405 | the nodes become the renumbered nodes and the names the pruned names, which are also returned; nothing else changes |
| InferenceModel.LeafCount | lib/api/CInferenceModelDefinition.cc:210-232 | the number of leaves is at most the number of nodes, zero exactly when no node is a leaf, and all of them exactly when every node is |
| InferenceModel.CountNodesAndLeaves | lib/api/CInferenceModelDefinition.cc:210-232 | the loop counts the leaves, and every other node as a split node |
| InferenceModel.CeilLog2 | lib/api/CInferenceModelDefinition.cc:235 | the least k with 2 to the k at least m, the integer value of ceil(log2(m)) |
| InferenceModel.CeilLog2Unique | lib/api/CInferenceModelDefinition.cc:235 | that least k is unique |
| InferenceModel.TreeNumOperations | lib/api/CInferenceModelDefinition.cc:223-236 | a tree's estimate is the least r with 2 to the r at least the number of nodes plus one |
| InferenceModel.PrunedPrefixStep | lib/api/CInferenceModelDefinition.cc:289-292 | one turn prunes the next member and no other |
| InferenceModel.PruneMembers | lib/api/CInferenceModelDefinition.cc:288-292 | every member is pruned, and the set holds the union of the names they kept |
| InferenceModel.PruneOne | lib/api/CInferenceModelDefinition.cc:290-291 | one member is pruned, the others are untouched, and the names it kept are returned |
| InferenceModel.CopyOut | lib/api/CInferenceModelDefinition.cc:293-295 | copying a set out gives each element once |
| InferenceModel.Ensemble.SetFeatureNames | lib/api/CInferenceModelDefinition.cc:257-262 | the ensemble and every member get the names; nothing else changes |
| InferenceModel.Ensemble.SetTargetType | lib/api/CInferenceModelDefinition.cc:280-285 | the ensemble and every member get the target type; nothing else changes |
| InferenceModel.Ensemble.SetClassificationLabels | lib/api/CInferenceModelDefinition.cc:305-310 | the ensemble and every member get the labels; nothing else changes |
| InferenceModel.Ensemble.SetClassificationWeights | lib/api/CInferenceModelDefinition.cc:312-317 | every member and then the ensemble get the weights; nothing else changes |
| InferenceModel.Ensemble.SwapAggregateOutput | lib/api/CInferenceModelDefinition.cc:264-266 | the new aggregate output is stored and the previous one handed back |
| InferenceModel.Ensemble.RemoveUnusedFeatures | lib/api/CInferenceModelDefinition.cc:287-299 | every member is pruned, and the ensemble's names become, and the result is, the union of the names the members kept, sorted and without repeats |
| InferenceModel.Ensemble.NumOperations | lib/api/CInferenceModelDefinition.cc:327-333 | the ensemble's estimate is the sum of its members' estimates |
| InferenceModel.OperationsStep | lib/api/CInferenceModelDefinition.cc:329-331 | each turn adds the member's own estimate |
| InferenceModel.Pow2Monotone | lib/api/CInferenceModelDefinition.cc:235 | powers of two grow with the exponent |
| Util.SortStringsCorrect | include/maths/common/CChecksum.h:308-324 | sorting strings gives a strictly increasing sequence with the same elements, and of the input's length when the input has no repeats |
## Left out

- Gzip compression and base64 encoding of the definition (`lib/api/CInferenceModelDefinition.cc:420-431` calls boost iostreams and a base64 filter). The compressed stream is the string argument of `CompressedExport.AddToDocumentCompressed`.
- `core::constants::BYTES_IN_MEGABYTES` is not part of this model. It is taken as 1024 * 1024, so MAX_DOCUMENT_SIZE is 16 MiB.
- Size-information JSON documents (`CSizeInfo::addToJsonDocument`, and the encodings' size infos). They build rapidjson DOM values and use `utf16LengthOfUtf8String`. Only the node and leaf counts and the operation estimates are modelled.
- InferenceModel.TreeNumOperations: the estimate is the integer ceiling of log2, not `std::ceil(std::log2(x))` in floating point; the two agree whenever the floating log is exact at powers of two.
- Ensemble members are modelled as trees only. The source allows any trained model as a member.
- The order in which `boost::unordered_map` and `boost::unordered_set` are iterated is not modelled. Pruning is proved correct for every iteration order, by an arbitrary choice.
- JSON writer internals: the writer is a recorder of events. Doubles are opaque reals, so their text rendering is not modelled.
- The JSON text of custom (opaque) preprocessors is taken as an already parsed JSON value.
- Integer widths: node indices, counts and sizes are unbounded `nat`, and so are gcd and lcm. The C++ lcm computes `a * b / gcd(a, b)`, forming the product first, so it overflows its integer type whenever `a * b` does, even when the lcm itself fits. The model does not capture that overflow. The 64-bit arithmetic of the checksums and of CStrHashIgnoreCase, where it matters, is written out modulo 2^64.
- Checksum.UnorderedSetOrderIndependent: the unordered set overload is generic in its element type and sorts with `COrderings::SReferenceLess` on that type. The model fixes the elements to strings in lexicographic order, so order independence is proved for string elements only.
- Checksum.UnorderedMapOrderIndependent: the unordered map overload is generic in its key and value types and sorts with `COrderings::SFirstLess` on the key. The model fixes the keys to strings in lexicographic order, so order independence is proved for string keys only.
- Checksum overloads for doubles and CFloatStorage are left out: they format with `sprintf("%.7g")` before hashing. `hashCombine`, `safeMurmurHash64`, `std::hash<vector<bool>>` and the member checksum and hash functions are fields of `Checksum.Hashing`, passed as parameters.
- CJsonStatePersistInserter.cc is not part of this model. The JSON inserter is modelled from what its test asserts: each value is a string member, each level a nested object, and keys are short codes or readable names.
- The XML inserter's `toXml` (rapidxml printing and escaping) is left out. The document is the node arena, and its length estimate is the modelled quantity.
- PersistenceTag: a restored name is taken to match a tag when it equals either form, which is what the tag comparison does on both naming modes.
- The CSV writer's precomputed hashes (`m_Hashes`) are an optimisation of the map lookups. The model looks fields up by name directly, which finds the same values.
- The CSV writer's separator check only logs an error. The model keeps the writer usable and states parsability (`SeparatorParsable`) as a precondition of the round-trip lemmas only.
- WordDictionary: the trim set is the six ASCII white-space characters, and `strCaseCmp` is taken as ASCII case-insensitive comparison. Characters outside ASCII are compared as they are. The ignore-case hash runs over characters (code points), whereas CStrHashIgnoreCase runs over the bytes of the UTF-8 string, so the hash values differ for non-ASCII words. Lookups do not depend on the values.
- Crossref: Python's `strip` and `lower` are reduced to ASCII white space and ASCII case. File reading and writing are sequences of lines.
- CCategoryExamplesCollector: the truncation of long examples is left out, because the value of `MAX_EXAMPLE_LENGTH` is not part of this model. Memory accounting and persistence are left out too.
- The CPatternSet implementation is not part of this model. Its semantics come from its test. A failed initialisation is taken to leave the set empty. JSON text parsing is left out: `PatternSet.PatternSet.InitFromJson` takes a parsed value.
- BoostedTreeUtils: column offsets are given as a parameter, because the data frame's alignment padding is not part of this model. `writeLossGradient` and `writeLossCurvature` delegate to the loss function, which is not part of this model. The split columns from `beginSplits` on are not modelled beyond their position.
- IntegerTools.Gcd: gcd and lcm are on non-negative integers. With negative inputs the C++ recursion does not terminate (for example gcd(-4, -6)), so those inputs are excluded.
- ModelJson.NodeWritable: the node serialisers require a leaf to hold at least one value and a split node to have a right child. The source reads `m_LeafValue[0]` and the `m_RightChild` optional without checking, which is undefined behaviour for such nodes, so those nodes are excluded.
- Logging on error paths is left out; the error path itself is modelled.

## Findings

| source | as written | input that shows it | evidently intended | confidence | as-written member | corrected member |
|---|---|---|---|---|---|---|
| include/maths/common/CChecksum.h:231-236 | the sparse-vector overload restarts every entry from `seed` instead of the running `result`, so only the last stored entry reaches the checksum | the vectors {0: x, 1: z} and {0: y, 1: z} with x != y get the same checksum whatever the hash primitives | each entry's checksum chained through the result of the one before, as the dense overload does | not executed | Checksum.SparseAsWrittenCollides | Checksum.SparseChainsAllEntries |
| lib/api/CInferenceModelDefinition.cc:934-939 | CWeightedMode writes the key "weighted_mode" followed directly by the key "weights", with no object between them | any weights: StartObject, Key("weighted_mode"), Key("weights"), ... | the layout of the other three aggregators: an object under the tag holding the weights array | not executed | ModelJson.WeightedModeAsWrittenRejected | ModelJson.AggregateAccepted |
