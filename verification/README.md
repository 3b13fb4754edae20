# underscore.hpp in Dafny

A model of the header-only C++ list and string toolkit `underscore.hpp`.

The toolkit has two eager list wrappers:

- `sequence<T>`, with filter, map, unique, wrapped slicing, reduce, find, any, all, unzip, to_map and join;
- `underscore<T>`, with join, filter, map, sort, clamped slicing, head, tail, reverse and the `__` line splitter.

It has two byte-string classes:

- the current `string`, with wrapped slicing, split, case conversion, prefix and suffix tests, replace, strip, index and rindex, `{}` formatting and strict `to_long`;
- the older `string` of strings.hpp.

It has three lazy map/filter pipelines:

- the `generator` and its twin `stream`, which keep a linked chain of `plan_item`s, copy it per iterator and close it with a recording sink;
- the pull generators `genlist`, `genmap` and `genfilter` of gentest.cpp, with `eog`, `get_next` and a push-based `process`.

Finally there is `range<int>`, with the generic `range<I>` over iterators.

Every value is immutable. Lists are `seq<T>` and strings are `seq<char>`, with one `char` per byte. A `plan_item` chain is a recursive datatype, so a copy never shares nodes with its original.

The module layout is:

| module | file | models |
|---|---|---|
| `Sequence` | sequence.dfy | sequence.hpp |
| `Underscore` | underscore.dfy | underscore.hpp |
| `StringValue` | string_value.dfy | string.hpp |
| `LegacyString` | legacy_string.dfy | strings.hpp |
| `Plan` | plan.dfy | the `plan_item` chain of generator.hpp and streams.hpp |
| `Generator` | generator.dfy | generator.hpp |
| `Streams` | streams.dfy | streams.hpp |
| `PullGenerators` | pull.dfy | gentest.cpp |
| `Ranges` | range.dfy | range.hpp |
| `Results` | results.dfy | helper: the `Result` and `Option` types |
| `Decimal` | decimal.dfy | helper: the rendering `std::to_string` gives an integer |

Several rules carry a C++ behaviour into the model:

- A C++ exception becomes a `Failure` of a `Result`.
- A `size_t` wrap-around is written out as arithmetic modulo 2^64.
- Undefined behaviour becomes a `requires`, for example an `int` overflow or an iterator moved outside its vector.
- A reversed range given to `sequence<T>::slice` or `underscore<T>::slice` reaches `ret.reserve(end - start)` with a negative count. That count converts to a `size_t` beyond `max_size()`, so `reserve` throws `std::length_error`, and the model returns that `Failure`.

Where the code and its comments disagree, the model follows the code:

- `sequence<T>::slice(-1)` returns the last element, not all but the last. See `Sequence.SliceMinusOne`.
- `to_long` skips leading white space and fails on values that do not fit a `long`, because `stol` does both.
- A map stage with no successor throws. The generator code never attaches a sink behind a map in `to_vector`, so the model gives that case as the throw.

## Model

| member | source | states |
|---|---|---|
| Sequence.WrapPosition | sequence.hpp:55-66 | a position lands in [0, size]: one in range is kept, a negative one counts from the end and is clamped at 0, and one beyond the end becomes size |
| Sequence.Join | sequence.hpp:100-114 | the empty list joins to "" and one element to its rendering |
| Sequence.JoinAppend | sequence.hpp:100-114 | joining a concatenation of two non-empty lists puts exactly one separator between the two joined halves |
| Sequence.Filter | sequence.hpp:123-128 | the result is a subsequence of the input, every kept element satisfies the predicate, and each satisfying value keeps its full multiplicity |
| Sequence.FilterAppend | sequence.hpp:123-128 | filtering distributes over concatenation, so the order of the input is kept |
| Sequence.Remove | sequence.hpp:137-142 | no element equals v, every other value keeps its multiplicity, and the result is a subsequence of the input |
| Sequence.Map | sequence.hpp:148-153 | the same length, with result[i] == f(data[i]) |
| Sequence.MapCompose | sequence.hpp:148-153 | mapping twice is mapping once with the composed function |
| Sequence.Sort | sequence.hpp:213-219 | the result is sorted by the given order and is a permutation of the input |
| Sequence.UniqueAll | sequence.hpp:228-240 | unique(false): no duplicates, the same set of values as the input, in order of first occurrence |
| Sequence.UniqueRuns | sequence.hpp:228-232 | unique(true): no two adjacent equal elements, the same set of values, a subsequence of the input, and the same last element; UniqueRunsKeepsRunHeads pins the result |
| Sequence.UniqueRunsKeepsRunHeads | sequence.hpp:228-232 | unique(true) keeps exactly the first element and every element that differs from its predecessor, so only runs of adjacent equal elements collapse |
| Sequence.RunHeadsSnoc | sequence.hpp:231 | std::unique_copy appends an element exactly when it differs from the last one copied |
| Sequence.UniqueRunsExample | sequence.hpp:228-232 | {1, 2, 1, 2} stays as it is, and {1, 1, 2, 2, 1} becomes {1, 2, 1} |
| Sequence.UniqueSortedAgrees | sequence.hpp:228-240 | on a sorted list the two modes of unique give the same result |
| Sequence.Slice | sequence.hpp:251-262 | std::length_error exactly when the wrapped bounds are reversed; otherwise exactly the elements with index in [wrap(start), wrap(end)) |
| Sequence.SliceReversedThrows | sequence.hpp:251-262 | slice(2, 1) and slice(-1, -2) of {1, 2, 3} throw std::length_error |
| Sequence.SliceFrom | sequence.hpp:251-262 | slice(start) with the default end is the suffix from wrap(start) |
| Sequence.SliceSplit | sequence.hpp:251-262 | slice(0, k) followed by slice(k) gives the list back |
| Sequence.SliceMinusOne | sequence.hpp:251-253 | slice(-1) of {1, 2, 3, 4, 5, 6} is {6}, against the doc comment's {1, 2, 3, 4, 5} |
| Sequence.Reverse | sequence.hpp:267-274 | the same length, with result[i] == data[n-1-i] |
| Sequence.ReverseInvolution | sequence.hpp:267-274 | reversing twice gives the list back |
| Sequence.Reduce | sequence.hpp:284-290 | the seed for an empty list; otherwise f applied to the last element and the reduction of the rest, so the last element is applied last |
| Sequence.ReduceAppend | sequence.hpp:284-290 | reduce is a left fold: reducing a + b is reducing b from the result for a |
| Sequence.ReduceMax | sequence.hpp:295-297 | the fold of std::max is at least the seed and every element, and equals the seed or one of the elements |
| Sequence.ReduceMin | sequence.hpp:301-303 | the fold of std::min is at most the seed and every element, and equals the seed or one of the elements |
| Sequence.Max | sequence.hpp:295-297 | the maximum of value_type() (0) and all the elements |
| Sequence.Min | sequence.hpp:301-303 | on a non-empty list, an element that no element is below |
| Sequence.Find | sequence.hpp:310-318 | -1 exactly when v does not occur from first on; otherwise the least index at or after first holding v |
| Sequence.AnySatisfies | sequence.hpp:323-329 | true exactly when some element satisfies the predicate |
| Sequence.AnyEquals | sequence.hpp:332-338 | true exactly when v occurs |
| Sequence.AllSatisfy | sequence.hpp:342-348 | true exactly when every element satisfies the predicate, so true on an empty list |
| Sequence.AllEqual | sequence.hpp:351-357 | true exactly when every element equals v |
| Sequence.Unzip | sequence.hpp:366-381 | two lists of the input's length whose i-th elements form the i-th pair |
| Sequence.ToMap | sequence.hpp:384-391 | the keys are the pairs' first components, and a repeated key maps to the last value written for it |
| Underscore.Join | underscore.hpp:27-41 | the empty list joins to "" and one element to its rendering |
| Underscore.JoinSeparates | underscore.hpp:27-41 | joining two non-empty halves puts exactly one separator between them, never a leading or trailing one |
| Underscore.Filter | underscore.hpp:43-48 | an order-preserving subsequence of exactly the satisfying elements |
| Underscore.Map | underscore.hpp:50-56 | the same length, pointwise |
| Underscore.Sort | underscore.hpp:58-64 | a sorted permutation of the input |
| Underscore.Slice | underscore.hpp:77-98 | empty when the adjusted end is negative or the adjusted start is past the size; std::length_error exactly when otherwise the adjusted bounds are reversed; else the elements in [adjusted start, adjusted end) |
| Underscore.SliceFrom | underscore.hpp:66-68 | slice(start) is the suffix from the adjusted start, or empty past the end |
| Underscore.Head | underscore.hpp:70-72 | head(n) is the first n elements, the whole list for n beyond the size, and all but the last -n for a negative n |
| Underscore.Tail | underscore.hpp:73-75 | tail(n) is everything from n, empty beyond the size, and the last -n elements for a negative n |
| Underscore.HeadTailSplit | underscore.hpp:70-75 | head(n) followed by tail(n) gives the list back, for every n |
| Underscore.SliceExamples | underscore.hpp:66-98 | on {1, 2, 3, 4, 5}: head(2), head(-2), tail(2), tail(-2), slice(1, 2), and slice(3, 1), which throws |
| Underscore.Reverse | underscore.hpp:100-107 | the same length, reversed |
| Underscore.ReverseTwice | underscore.hpp:100-107 | reversing twice gives the list back |
| Underscore.GetLine | underscore.hpp:114 | std::getline reads up to the first separator, which it consumes, or to the end |
| Underscore.SplitLines | underscore.hpp:110-118 | no line holds the separator, only an empty text gives no lines, and joining the lines plus one separator when the text ends in one gives the text back |
| Underscore.ReadLinesRoundTrip | underscore.hpp:110-118 | the same three facts for the loop over std::getline, by induction on the text |
| Underscore.ReadLinesStep | underscore.hpp:114-115 | the first line is the text before the first separator, and the rest is read after it |
| Underscore.SplitLinesExample | underscore.hpp:110-118 | "Hello, world" splits into "Hello" and " world" |
| StringValue.FindFrom | string.hpp:120-131 | std::string::find gives an occurrence at or after from, or -1 |
| StringValue.FindFromFirst | string.hpp:120-131 | find misses nothing: no occurrence lies between from and the position found |
| StringValue.SplitByChar | string.hpp:53-69 | no segment holds the separator; kept, there is one segment more than separators and joining gives the text back; dropped, the non-empty segments remain in order |
| StringValue.SplitJoinRoundTrip | string.hpp:53-69 | splitting the join of separator-free parts gives the parts back |
| StringValue.SplitByString | string.hpp:71-88 | the same for a non-empty string separator: no segment holds it, kept there is one segment more than non-overlapping occurrences and joining gives the text back, dropped the non-empty segments remain in order |
| StringValue.SplitAtPatternLeftmost | string.hpp:77-85 | each cut is at the leftmost occurrence from where the previous one ended: no segment but the last, followed by all but the last character of the separator, holds the separator |
| StringValue.SplitByStringLeftmost | string.hpp:71-88 | split with kept empties cuts at the leftmost occurrences, so "aaa" on "aa" cannot give {"a", ""} |
| StringValue.SplitOverlapExample | string.hpp:77-85 | "aaa" split on "aa" with kept empties gives {"", "a"} |
| StringValue.SplitExamples | string.hpp:53-69 | "Hello  world" on ' ' gives {"Hello", "", "world"} kept and {"Hello", "world"} dropped |
| StringValue.Lower | string.hpp:90-96 | the same length, each byte lowered on its own |
| StringValue.Upper | string.hpp:97-103 | the same length, each byte raised on its own |
| StringValue.CaseConversions | string.hpp:90-103 | lower and upper are idempotent, and each undoes the other's effect on case |
| StringValue.StartsWith | string.hpp:105-109 | true exactly when x is a prefix |
| StringValue.EndsWith | string.hpp:111-115 | true exactly when x is a suffix |
| StringValue.PrefixSuffixLaws | string.hpp:105-115 | an empty needle always matches, a needle longer than the text never does, and a concatenation starts with its first part and ends with its second |
| StringValue.Contains | string.hpp:116-118 | true exactly when x occurs somewhere |
| StringValue.Replace | string.hpp:120-131 | the leftmost non-overlapping occurrences are replaced, scanning on after each inserted text; without an occurrence the text is unchanged |
| StringValue.ReplaceRestSplits | string.hpp:124-129 | the replace loop from any point equals the text done so far followed by the rest's segments joined with the replacement |
| StringValue.Strip | string.hpp:136-140 | a contiguous substring with only ' ', '\n' and '\t' outside it and none at either end; empty exactly when the text is all such bytes |
| StringValue.IndexOfChar | string.hpp:165-170 | the first position of c, or -1 exactly when c is absent |
| StringValue.IndexOf | string.hpp:176-181 | the first occurrence of the pattern, or -1 exactly when it is absent |
| StringValue.IndexOfCharIn | string.hpp:171-174 | the first position of c in [wrap(start), wrap(end)), or wrap(start) - 1 when it is not there |
| StringValue.IndexOfIn | string.hpp:182-185 | the first occurrence in the slice, shifted by wrap(start), or wrap(start) - 1 when there is none; a hit is an occurrence in the whole text |
| StringValue.LastIndexOfChar | string.hpp:194-199 | the last position of c, or -1 exactly when c is absent |
| StringValue.LastIndexOf | string.hpp:205-210 | the last occurrence of the pattern, or -1 exactly when it is absent |
| StringValue.LastIndexOfCharIn | string.hpp:187-193 | the last position of c from wrap(end) down to wrap(start), both ends included, or -1 when none |
| StringValue.LastIndexOfIn | string.hpp:201-204 | the last occurrence in the slice, relative to the slice, or -1 when there is none |
| StringValue.Slice | string.hpp:212-221 | "" when the wrapped end is before the wrapped start; otherwise exactly the bytes in [wrap(start), wrap(end)) |
| StringValue.SliceFrom | string.hpp:212-221 | slice(start) with the default end is the suffix from wrap(start) |
| StringValue.Format | string.hpp:255-279 | succeeds exactly when the number of {} equals the number of arguments, and then interleaves them left to right; too few arguments and too many give the two different errors |
| StringValue.FormatLoopSpec | string.hpp:255-279 | the loop over the {}-separated parts from any part on gives the same three outcomes |
| StringValue.FormatExamples | string.hpp:255-279 | "{}!" with "Hi" gives "Hi!"; "{}" with no argument and "x" with one give the two errors |
| StringValue.ToLong | string.hpp:281-287 | the result is pinned by what stol reads (white space, an optional sign, a maximal run of digits): invalid_argument when there is no such number; out_of_range when its value does not fit a long; invalid_argument when bytes follow it; otherwise its signed value |
| StringValue.NumbersAreScanned | string.hpp:283 | the number stol reads is unique: its white space, sign and digits end where the scan finds them |
| StringValue.ToLongOfParts | string.hpp:281-287 | white space, a sign or none, and digits, followed by bytes that do not continue the digits: out_of_range, invalid_argument or the signed value, as that rule says |
| StringValue.ToLongSignsAndSpaces | string.hpp:281-287 | " +12" gives 12, while "12 ", "1-2" and "--1" fail with invalid_argument |
| StringValue.DoubledSign | string.hpp:283-285 | "--1" holds no number stol can read |
| StringValue.ToLongShowRoundTrip | string.hpp:281-287 | parsing the decimal rendering of a long gives the number back |
| StringValue.ToLongReadsAll | string.hpp:281-287 | an optional '-' followed by digits is read whole and succeeds exactly when the value fits a long |
| StringValue.ToLongExamples | string.hpp:281-287 | "123" gives 123, while "123 er" and "" fail with invalid_argument |
| StringValue.Concat | string.hpp:320-322 | the length is the sum, and the result starts with a and ends with b |
| LegacyString.SplitByChar | strings.hpp:28-44 | the char split of string.hpp: no separator in a segment, the count and round trip when kept, the non-empty segments in order when dropped |
| LegacyString.SplitByString | strings.hpp:46-64 | no segment holds the separator; kept, there is one segment more than non-overlapping occurrences, each cut is at the leftmost occurrence and joining gives the text back; dropped, the non-empty segments remain in order |
| LegacyString.Lower | strings.hpp:66-72 | the same length, each byte lowered on its own |
| LegacyString.Upper | strings.hpp:73-79 | the same length, each byte raised on its own |
| LegacyString.StartsWith | strings.hpp:81-85 | true exactly when x fits and is a prefix |
| LegacyString.EndsWith | strings.hpp:87-91 | true exactly when x fits and is a suffix |
| LegacyString.Slice | strings.hpp:101-118 | a negative end is size+end+1; "" for a still negative end or a start past the size; the bytes in [start, end) when ordered; the suffix from start when the start is beyond the end |
| LegacyString.Substr | strings.hpp:117 | std::string::substr with a count that reaches past the end, or that wrapped below zero, gives the suffix |
| LegacyString.SliceShiftsNegativeEnd | strings.hpp:101-118 | against underscore's slice, a negative end here is that end plus one there |
| LegacyString.SliceToLast | strings.hpp:101-118 | an end of -1 runs through the last byte, and the full range gives the text back |
| LegacyString.ReversedRangeRunsToEnd | strings.hpp:117 | a reversed range gives the suffix from the start, not "" |
| LegacyString.SliceExamples | strings.hpp:101-118 | on "Hello, world": slice(0, -6), slice(-7, -6), slice(-5, -1) and slice(7, 3) |
| Plan.FromStages | generator.hpp:27-43 | the chain built from a list of stages has exactly those stages |
| Plan.StagesDetermineChain | generator.hpp:27-43 | a chain is determined by its stages |
| Plan.Append | generator.hpp:36-43 | push_back hangs the new chain at the tail; the stages are the old ones followed by the new ones |
| Plan.WithStage | generator.hpp:96-111 | filter or map adds one stage at the tail and leaves a non-null plan |
| Plan.Copy | generator.hpp:59-64 | copy gives a chain with the same stages in the same order |
| Plan.EagerIsCollect | generator.hpp:113-136 | running each value through all the stages in turn gives the eager map/filter fold |
| Plan.CollectApply | generator.hpp:54-58 | applying the first stage to the whole list and collecting through the rest is collecting through all the stages |
| Plan.PassSnoc | generator.hpp:36-43 | a stage added at the tail acts on what the earlier stages let through |
| Plan.EagerSnoc | generator.hpp:36-43 | the fold with a stage added at the tail applies that stage to the fold of the earlier ones |
| Plan.Invoke | generator.hpp:54-58 | a recorded value needs a sink in the chain, and a throw comes only from a map that is the last stage; InvokeWithSink and InvokeWithoutSink give the whole outcome |
| Plan.DoPlan | generator.hpp:113-116 | on a plan of filters and maps (or none) nothing is recorded, and it throws exactly when the last stage is a map and the value gets through the stages before it |
| Plan.InvokeWithSink | generator.hpp:54-85 | a chain ending in the sink never throws; the sink records exactly the values the fold lets through, transformed as the fold transforms them |
| Plan.InvokeWithoutSink | generator.hpp:54-85 | a chain without a sink records nothing; it throws exactly when its last stage is a map and the value passes every stage before it |
| Generator.PushBack | generator.hpp:159-169 | the data is unchanged, the plan is non-null, and its stages are the old ones followed by the new item's |
| Generator.Filter | generator.hpp:183-185 | a new generator over the same data whose stages are the receiver's plus one filter |
| Generator.Map | generator.hpp:186-188 | a new generator over the same data whose stages are the receiver's plus one map |
| Generator.BuildersKeepWellFormed | generator.hpp:183-188 | filter and map add no sink |
| Generator.ComputeValue | generator.hpp:128-136 | the cursor moves forward past only dropped elements, and stops at the next element the plan lets through, whose value it records, or at the end |
| Generator.NewIterator | generator.hpp:138-148 | the iterator's own plan is the user's stages followed by one sink, and its first value is computed from the given cursor |
| Generator.Begin | generator.hpp:180 | begin() is at the first element the plan lets through |
| Generator.End | generator.hpp:181 | end() has its cursor past the data |
| Generator.Deref | generator.hpp:150 | no contract of its own: it returns the recorded value, which Generator.BeginDerefIsFirst and Generator.Iterate describe |
| Generator.NotEqual | generator.hpp:152-154 | no contract of its own: it compares cursors only, and Generator.BeginDerefIsFirst and Generator.Iterate state what comparing with end() decides |
| Generator.BeginDerefIsFirst | generator.hpp:150-154 | begin() != end() exactly when the generator yields a value, and then *begin() is the first value it yields |
| Generator.Advance | generator.hpp:151 | ++ moves past the current element to the next one the plan lets through |
| Generator.Iterate | generator.hpp:121-155 | a range-for over the generator yields the eager map/filter fold of the data, with != comparing cursors only |
| Generator.RunAll | generator.hpp:113-116 | do_plan completes on every element exactly when none of them reaches a map with no successor |
| Generator.ToVector | generator.hpp:211-220 | to_vector never attaches its sink: on success it is empty, and it throws exactly when do_plan throws on some element |
| Generator.ToVectorFails | generator.hpp:211-220 | to_vector throws exactly when the last stage is a map and some element gets through every stage before it |
| Generator.ToVectorMissesIteration | generator.hpp:211-220 | a plan with one pass-all filter over {"a"} iterates to {"a"} but converts to {} |
| Generator.Head | generator.hpp:193-208 | head is always empty, succeeds for a zero count, and otherwise throws exactly when to_vector does |
| Generator.Sort | generator.hpp:190-192 | sort is to_vector sorted, hence the same empty list or the same throw |
| Generator.IterationExample | generator.hpp:121-188 | {"¡", "Hola", "Mundo", "!"} filtered to lengths over 2 and prefixed with "Test " iterates to {"Test Hola", "Test Mundo"} |
| Streams.Filter | streams.hpp:183-185 | a new stream over the same data with one more filter stage |
| Streams.Map | streams.hpp:186-188 | a new stream over the same data with one more map stage |
| Streams.Iterate | streams.hpp:121-155 | iteration yields exactly the elements that reach the iterator's sink, transformed, in source order |
| Streams.ToVector | streams.hpp:191-200 | to_vector collects nothing, and throws exactly when do_plan throws on some element |
| PullGenerators.Map | gentest.cpp:82-84 | wrapping keeps the source and the cursor and adds one map stage |
| PullGenerators.Filter | gentest.cpp:85-87 | wrapping keeps the source and the cursor and adds one filter stage |
| PullGenerators.IsEog | gentest.cpp:42-44 | eog() holds exactly when the cursor has reached the end of the list |
| PullGenerators.GetNext | gentest.cpp:45-49 | get_next keeps the shape, only moves the cursor forward, returns the next value the stages let through and skips only dropped elements; eog means no element left passes, and the generator is left at its end |
| PullGenerators.FilterNext | gentest.cpp:103-110 | the filter pulls until its predicate holds, never returns an element failing it, and throws eog once its predecessor is exhausted, leaving the predecessor at its end |
| PullGenerators.MapKeepsYields | gentest.cpp:73-75 | a map returns f of what its predecessor returns |
| PullGenerators.EogDoesNotPromiseValue | gentest.cpp:100-110 | a filter over a non-exhausted list is not at eog, yet get_next throws eog, and the throw leaves the list at its end |
| PullGenerators.Process | gentest.cpp:50-53 | the push drain from the list up through the wrappers is the eager map/filter fold of the whole list, whatever the cursor |
| PullGenerators.ToVector | gentest.cpp:135-153 | to_vector is the eager map/filter fold of the source |
| PullGenerators.PullDrain | gentest.cpp:142-149 | pulling until eog collects the remaining elements through the stages |
| PullGenerators.PushPullAgree | gentest.cpp:135-153 | on a fresh pipeline, the pull drain and the push drain give the same list |
| PullGenerators.ExamplePipeline | gentest.cpp:156-175 | the example pipeline over "Hola", "Mundo!", "Mundito", "Que", "Tal" gives "...Mundo!..." and "...Mundito..." |
| Ranges.At | range.hpp:83 | at(p) within the size is the p-th value the range iterates, and beyond the size a number at or past end |
| Ranges.Size | range.hpp:84 | the size is e - b, wrapped into size_t when the range is reversed |
| Ranges.Empty | range.hpp:85 | empty exactly when b == e, which is exactly a size of zero |
| Ranges.Iterate | range.hpp:59-81 | ++ from begin() until end() visits b, b+1, ..., e-1: size() values, the k-th being at(k) |
| Ranges.IterAt | range.hpp:39-40 | at(p) within the size is one of the elements between begin and end; Ranges.Elements pins it as the p-th |
| Ranges.IterSize | range.hpp:41 | end - begin, wrapped into size_t when reversed |
| Ranges.IterEmpty | range.hpp:42 | empty exactly when begin == end |
| Ranges.Elements | range.hpp:37-42 | a range over a vector has size() elements, the k-th being at(k), and none exactly when empty() |
| Ranges.JoinExample | test.cpp:122-135 | _(1, 6) and the range over {1, 2, 3, 4, 5}, both built by the `_` overloads of underscore.hpp:27-41, join to "1, 2, 3, 4, 5" |

## Left out

- File and stream input: file.hpp, the `__(std::istream&&)` overload (underscore.hpp:120-128), services.cpp and the file part of test.cpp. The model has no I/O.
- `to_double` and `to_float` (string.hpp:288-301): floating point is not modelled.
- `zip` is exercised by test.cpp but defined in none of these files.
- `each` (sequence.hpp:178-182) only has side effects, and `flatMap` is outside the listed operations.
- The `make_range` template (range.hpp:88-91) cannot be instantiated, because `std::forward` is called without its template argument. The `make_range(int, int)` overload (range.hpp:92-94) is the same as `IntRange(b, e)`.
- The `main` functions of gentest.cpp and test.cpp are only mirrored by the example lemmas.
- C++ lifetime machinery is not modelled: the `this` capture of the iterator's sink, `shared_ptr` aliasing, the move constructors of gentest.cpp and the `operator=` overloads. Values are immutable here, so "a copy shares no nodes" holds by construction.
- Presentation is not modelled: the injected `std::to_string` overloads, `operator<<` and `c_str`. `join` takes the rendering function as a parameter.
- The `std::sort` algorithm is specified only by its result: a sorted permutation under a total preorder `le`, which stands for `!(b < a)`. The same goes for `underscore<T>::sort`, `generator::sort` and `sequence<T>::sort()`.
- `tolower` and `toupper` follow the "C" locale: only ASCII letters change.
- StringValue.SplitByString: requires a non-empty separator, because the source loops forever on an empty one over a non-empty text. An empty separator on an empty text, which gives {""} kept and {} dropped, is left out with it.
- StringValue.Replace: requires a non-empty `orig`, because the source loops forever on an empty one: `find` of "" always succeeds at the current position.
- LegacyString.SplitByString: requires a non-empty separator, because the source loops forever on an empty one over a non-empty text.
- Sequence.Find: requires `0 <= first <= size`, because `begin() + first` outside that range is undefined.
- Sequence.Min: requires a non-empty list, because the source reads `_data[0]`.
- Sequence.Max and Sequence.ReduceMax: are stated for `int` elements, where `value_type()` is 0.
- Sequence.SliceFrom: requires the list to be no longer than the largest `ssize_t`, the default end.
- StringValue.SliceFrom: requires the same bound.
- Ranges.At: only the const `at` (range.hpp:83) is modelled. The non-const overload (range.hpp:82) returns a reference to the counter of the temporary iterator that `operator+` returns by value (range.hpp:67, 63), so reading through it is undefined.
- Ranges.Size and Ranges.At: require `e - b` and `b + p` to fit an `int`, because signed overflow is undefined. `at(p)` with `p` above `INT_MAX` is not modelled.
- Ranges.IterSize: requires the vector to hold fewer than 2^64 elements.
- Generator.Iterate, Generator.Begin and Generator.End: require a non-null plan, because the source dereferences it. They also require that the plan holds only filter and map stages, which every generator built with `filter` and `map` satisfies (Generator.BuildersKeepWellFormed).
- Generator.Sort and Underscore.Sort: take the order as a parameter instead of `std::string`'s `operator<`.
- Generator.ComputeValue: does not model a throw from a map with no successor. That case cannot arise, because the iterator's own chain always ends in its sink (Plan.InvokeWithSink).
- StringValue.ToLong: reads only decimal digits, with an optional sign after white space, as `stol` does in base 10. It does not model the "C" locale beyond the six `isspace` bytes.
- StringValue.LastIndexOfCharIn: reads the byte at position `end` inclusive. At position `size` that byte is the terminating '\0' of the buffer, which the model gives explicitly.
