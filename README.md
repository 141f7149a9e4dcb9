# gopkg core, modelled in Dafny

This project models three packages of the Go library favbox/gopkg and
proves properties of the model.

- **util/downloader**: the chunked downloader.
  - `chunked` turns the content length reported by a HEAD request into
    inclusive byte ranges. It uses either an explicit chunk count or one
    range per MiB.
  - `mustChunked` replaces a failed probe with one range over everything.
  - `DownloadWithChunks` chooses the destination name. After the download it
    sorts the chunk files by index and appends each to the destination. It
    removes each chunk file and stops at the first failed copy.
  - `makeFilename` builds the pattern of the temporary chunk files.
- **fns**: generic slice helpers. These are `SliceToMap`, `Filter`,
  `FilterParam`, `Map`, `SelectRandom`, `Unique`, `Any` and `All`.
- **util/filex**: `CleanName` replaces the characters that file systems
  refuse. `GetNameFromURL` takes the last element of a URL's path.

The source's own form is kept:
- Loops are methods with loop invariants.
  - `Filter`, `FilterParam`, `Unique`, `SelectRandom`, `chunked` and the merge
    are proved against a reference function, whose properties are proved as
    lemmas.
  - `SliceToMap`, `Map`, `Any` and `All` state their property directly in
    their `ensures`.
- `chunked` fills a freshly made array field by field.
- `SelectRandom` as written is modelled on the caller's array, which its
  `append` writes into.
- The merge is a method of a `FileSystem` class whose `files` map it
  updates.
- The pure parts are functions, such as `CleanName`, `path.Base`, the range
  plan and `makeFilename`.

What the outside world provides becomes a parameter:
- the outcome of the HEAD request (`Probe`);
- the outcome of `url.Parse` (the decoded path, or `None`);
- the indices `fastrand.Intn` draws (`picks`);
- the outcome of `os.Create` and of each `io.Copy`;
- the xxhash3 value of the URL.

Go's `int` is modelled as an unbounded integer. Go's truncating `/` and `%` are written
out as `GoDiv` and `GoMod`.

Two behaviours of the code are modelled as written:
- The last range ends at `totalBytes`, one past the last byte offset.
- When a copy fails, the merge returns at once and the chunk files after the
  failed one stay on disk. The failed chunk file itself is removed before the
  error is checked.

The automatic chunk count keeps every range well formed for every length
below `(ChunkBytes + 2) * ChunkBytes` bytes, 2 MiB above 1 TiB, and that bound
is tight. At `(ChunkBytes + 2) * ChunkBytes` bytes the count is
`ChunkBytes + 2`, and the last range is `{t + 1, t}` for that length t: it
starts past its own end.

## Model

| member | source | states |
|---|---|---|
| Downloader.GoDiv | util/downloader/downloader.go:211 | Go's `/` on `int`: the quotient truncated toward zero, with the sign of `a` |
| Downloader.GoDivTruncates | util/downloader/downloader.go:211 | The truncated quotient times `b` is the largest multiple of `b` not beyond `a` toward zero: within `b` of `a`, on the side of zero |
| Downloader.GoMod | util/downloader/downloader.go:211 | Go's `%` with the quotient `/` truncated toward zero: `a == (a / b) * b + a % b`, and the remainder takes the sign of `a` |
| Downloader.CeilDiv | util/downloader/downloader.go:207 | `math.Ceil(a / b)` on integers: the least `q` with `a <= q * b` |
| Downloader.ChunkCount | util/downloader/downloader.go:195-208 | The count is the explicit count when one is given. Otherwise it is 1 for at most 1 MiB, and otherwise the least `n >= 2` with `totalBytes <= n * ChunkBytes` |
| Downloader.Chunked | util/downloader/downloader.go:186-234 | A failed probe gives `([], 0, error)`. Otherwise the length is returned and the array filled in the loop equals the plan `ChunkPlan`: a single range `{0, length}` without a count for at most 1 MiB, else the n closed-form ranges |
| Downloader.MustChunked | util/downloader/downloader.go:175-183 | A failed probe gives the single range `{0, MaxInt}` and length `MaxInt`. Otherwise it gives exactly what `chunked` returns |
| Downloader.ChunkPlanEnds | util/downloader/downloader.go:214-225 | The plan has `ChunkCount` ranges. The first starts at 0 and the last ends at `totalBytes`, for every count |
| Downloader.PlanContiguous | util/downloader/downloader.go:223-228 | Each range after the first starts one past the end of the previous range |
| Downloader.PlanInteriorWidth | util/downloader/downloader.go:211-229 | Every range but the last spans `totalBytes / n` (plus one offset, the ends being inclusive) |
| Downloader.PlanLastWellFormedIff | util/downloader/downloader.go:221-225 | The last range has `start <= end` if and only if `n - 1 <= totalBytes / n + totalBytes % n`. It is inverted otherwise |
| Downloader.FewChunksWellFormed | util/downloader/downloader.go:211-225 | At least `n * (n - 1)` bytes keep the last of n ranges well formed |
| Downloader.TilesCover | util/downloader/downloader.go:214-231 | Ranges that tile `[0, totalBytes]` are ordered and pairwise disjoint. Every offset of `[0, totalBytes]` lies in one of them, and none reaches outside |
| Downloader.PlanTiles | util/downloader/downloader.go:211-231 | For a known length, the plan tiles `[0, totalBytes]` whenever its last range is well formed |
| Downloader.NearlySquareWellFormed | util/downloader/downloader.go:211-225 | With n ranges, every length above `(n - 1) * (n - 2)` other than `n * (n - 2)` keeps the last range well formed |
| Downloader.AutoPlanTiles | util/downloader/downloader.go:199-231 | Without an explicit count, every length below `(ChunkBytes + 2) * ChunkBytes` (1 TiB plus 2 MiB) is tiled: below that bound the automatic count never inverts the last range |
| Downloader.AutoPlanInvertsAboveBound | util/downloader/downloader.go:199-231 | The bound of `AutoPlanTiles` is tight: at `(ChunkBytes + 2) * ChunkBytes` bytes the automatic plan has `ChunkBytes + 2` ranges and its last range `{t + 1, t}` is inverted |
| Downloader.ResolveName | util/downloader/downloader.go:69-77 | A non-empty first `filename` argument is the name. Otherwise the outcome is exactly `GetNameFromURL`'s, and its failure is the only failure. A resolved name is never empty |
| Downloader.Decimal | util/downloader/downloader.go:170 | `%d` of a non-negative integer: a non-empty string of decimal digits, with no leading zero unless the number is 0 |
| Downloader.DecimalRoundTrip | util/downloader/downloader.go:170 | Reading the printed digits back gives the number |
| Downloader.MakeFilename | util/downloader/downloader.go:169-172 | `"%d-%d"` of the hash and the chunk position: digits, one `-` right after the hash's digits, then digits |
| Downloader.MakeFilenameInjective | util/downloader/downloader.go:169-172 | Distinct (hash, chunk position) pairs give distinct `"%d-%d"` names |
| Downloader.SortByIndex | util/downloader/downloader.go:105-108 | After the sort the handles are ordered by `Index` and are a permutation of the handles before it |
| Downloader.Insert | util/downloader/downloader.go:105-108 | One insertion pass extends the sorted prefix by one element and keeps the multiset of handles. The elements after it stay as they were |
| Downloader.SortedArrangementUnique | util/downloader/downloader.go:105-108 | With unique indices, any two sorted arrangements of the same handles are equal. The merge order does not depend on the order in which the chunks finished |
| Downloader.SortedIndicesArePositions | util/downloader/downloader.go:93-95 | Chunks numbered 0 to n-1, once sorted, sit at the positions their indices give |
| Downloader.AscendingHeadsAgree | util/downloader/downloader.go:105-108 | Two strictly ascending arrangements of the same elements start with the same element |
| Downloader.StrictArrangementUnique | util/downloader/downloader.go:105-108 | Two strictly ascending sequences with the same elements and length are equal |
| Downloader.MergeStepsState | util/downloader/downloader.go:116-124 | After k loop steps the first k chunk files are gone. The destination has grown by what the k copies wrote |
| Downloader.MergeStepsKeys | util/downloader/downloader.go:116-124 | After k loop steps the files are those before the merge minus the first k chunk files |
| Downloader.MergeStepsDestination | util/downloader/downloader.go:116-124 | After k loop steps the destination holds its old contents followed by what the first k copies wrote |
| Downloader.MergeStepsKeepOthers | util/downloader/downloader.go:116-124 | After k loop steps every file other than the destination still present keeps its original contents |
| Downloader.MergeStepsKeepChunk | util/downloader/downloader.go:116-124 | A chunk file at a position not yet reached is still present with its original contents |
| Downloader.GatheredAllCopied | util/downloader/downloader.go:116-124 | When every copy succeeds, the bytes appended are the chunk files' contents in order |
| Downloader.MergeCompletes | util/downloader/downloader.go:110-125 | With every copy succeeding, the destination holds the chunk files' contents in index order and every chunk file is removed. Every other file keeps its contents |
| Downloader.MergeStopsAt | util/downloader/downloader.go:116-124 | When copy k fails first: the files left are those before the merge minus the first k + 1 chunk files. The destination holds the first k files plus the part of file k that was written. Files at positions up to k are removed; later ones, and every other file, are unchanged |
| Downloader.MergeIgnoresArrivalOrder | util/downloader/downloader.go:105-125 | Two sorted arrangements of the same chunk files give the same merge result: the final files do not depend on the order in which chunks finished |
| Downloader.FileSystem.Merge | util/downloader/downloader.go:105-125 | The handles end sorted and permuted. A failed `os.Create` returns that error and changes nothing. Otherwise the destination is created empty, the file system becomes `MergeResult`, and the error names the first chunk file whose copy failed, or is nil |
| Downloader.FileSystem.CopyAll | util/downloader/downloader.go:116-124 | The loop performs `FirstFailure + 1` steps (all of them when none fails) and returns the error of the failed copy |
| Downloader.FrameAtPositions | util/downloader/downloader.go:116-120 | The frame stated on the multiset of handles holds position by position |
| DownloaderTest.AutoChunkCounts | util/downloader/downloader_test.go:12-30 | 224971 bytes give the single range `{0, 224971}`. 1691754 bytes give 2 ranges and 2334896 bytes give 3, the last ending at the length |
| DownloaderTest.ExplicitChunkCounts | util/downloader/downloader_test.go:39-67 | Explicit counts 2, 3 and 5 over 2334896 bytes give that many ranges, the last ending at the length |
| DownloaderTest.InvertedLastRange | util/downloader/downloader.go:211-229 | Four explicit chunks over 5 bytes give `{0,1} {2,3} {4,5} {6,5}`: the last range is inverted |
| Fns.SliceToMap | fns/fns.go:15-21 | The keys are exactly `f(v)` for the elements v. Each key maps to the last element with that key |
| Fns.LastWithKeyExists | fns/fns.go:17-19 | Every key of an element has a last element, so the map is determined by the slice |
| Fns.Filtered | fns/fns.go:24-32 | No longer than the input, and every kept element satisfies f |
| Fns.FilteredIsSubsequence | fns/fns.go:24-32 | The filter result is the subsequence of s at the strictly increasing positions whose elements satisfy f. Position i is among them if and only if `f(s[i])` |
| Fns.Filter | fns/fns.go:24-32 | The loop's result is the reference filter `Filtered(s, f)` |
| Fns.FilterParam | fns/fns.go:35-43 | The loop's result is `Filtered` with the predicate `v => f(v, p)` |
| Fns.Map | fns/fns.go:46-52 | The same length as the input, and element i is `f(s[i])` |
| Fns.Deduplicated | fns/fns.go:73-83 | Every element of the result is in s, and every element of s is in the result |
| Fns.DeduplicatedKeepsFirstOccurrences | fns/fns.go:73-83 | The result has no duplicates and lists elements in the order of their first occurrence in s |
| Fns.Unique | fns/fns.go:73-83 | The loop with its seen-set computes `Deduplicated(s)` |
| Fns.Any | fns/fns.go:86-93 | True if and only if some element satisfies f |
| Fns.All | fns/fns.go:96-103 | True if and only if every element satisfies f |
| Fns.PoolStep | fns/fns.go:60-68 | Each pick removes the chosen position from the pool the earlier picks left |
| Fns.SelectStep | fns/fns.go:60-68 | One loop iteration keeps the state in step: the pool is what the first i picks leave, and the results so far plus what the remaining picks select from the pool make the whole selection |
| Fns.SelectionAndPoolPartition | fns/fns.go:60-68 | The drawn elements and what is left of the pool together are the input multiset: no position is drawn twice |
| Fns.SelectRandom | fns/fns.go:55-69 | Corrected (the caller's slice is not written). For at most n elements, s itself. Otherwise n elements, exactly those the picks select from the shrinking pool, and a sub-multiset of s |
| Fns.BackingLivePartIsPool | fns/fns.go:67 | After the in-place removals, the live part of the backing array is the pool the picks leave |
| Fns.AppendOverTail | fns/fns.go:67 | `append(s[:idx], s[idx+1:]...)` shifts the tail one place left inside the caller's array |
| Fns.AsWrittenRunState | fns/fns.go:60-68 | Each iteration of the loop as written keeps its state: results so far plus what the remaining picks select make the selection, and the remaining shifts lead to the final backing array |
| Fns.SelectLoop | fns/fns.go:60-68 | The loop on the caller's array computes the run function: the results and the shifted backing array |
| Fns.SelectRandomAsWritten | fns/fns.go:55-69 | As written: the elements returned are the right selection, but the caller's array is left as `Backing`, rearranged with duplicated tail elements |
| Fns.SelectRandomClobbersCallerSlice | fns/fns_test.go:31-36 | On the test slice `["a","b","c","bc"]`, two picks of 0 leave `["c","bc","bc","bc"]` in the caller's slice. A second call on it can return `"bc"` twice |
| FnsTest.UniqueExample | fns/fns_test.go:46-49 | `Unique(["a","b","c","b","a","cc"])` is `["a","b","c","cc"]` |
| FnsTest.DeduplicatedRepeats | fns/fns_test.go:46-49 | Four distinct values with the second and first repeated deduplicate to the four values in order |
| FnsTest.FilterParamExample | fns/fns_test.go:23-29 | Filtering `["a","b","c","bc"]` with prefix `"b"` gives `["b","bc"]` |
| Filex.CleanName | util/filex/filex.go:11-16 | Same length. No forbidden character remains, every other character is kept, and every forbidden one becomes `_` |
| Filex.CleanNameIdempotent | util/filex/filex.go:11-16 | Cleaning a cleaned name changes nothing |
| Filex.TrimTrailingSlashes | util/filex/filex.go:25 | A prefix of the path that does not end in a slash, followed in the path by slashes only |
| Filex.AfterLastSlash | util/filex/filex.go:25 | A slash-free suffix of the path, preceded in the path by a slash unless it is all of it |
| Filex.PathBase | util/filex/filex.go:25 | `path.Base`: never empty. It is `"/"` exactly for a non-empty path of slashes only, and otherwise contains no slash |
| Filex.PathBaseIsLastElement | util/filex/filex.go:25 | For a path ending in an element (and possibly trailing slashes), `path.Base` is that element |
| Filex.PathHasLastElement | util/filex/filex.go:25 | Every non-empty path that is not all slashes has that shape |
| Filex.TrimAfterElement | util/filex/filex.go:25 | Trailing slashes after a non-slash character are exactly what is trimmed |
| Filex.AfterLastSlashOfElement | util/filex/filex.go:25 | The part after the last slash of a directory plus an element is the element |
| Filex.GetNameFromURL | util/filex/filex.go:19-31 | A parse failure is an error, and so is an empty or all-slash path. A returned name is non-empty, slash-free and has no forbidden character |
| Filex.GetNameFromURLLastElement | util/filex/filex.go:25-30 | For a path ending in an element, the result is an error exactly when the element is `"."`, and otherwise the cleaned element |
| FilexTest.GetNameFromURLExample | util/filex/filex_test.go:9-14 | The test URL's path gives `MY3AJ5YKTJX7AAABAAAAADY8.jpg` unchanged |

## Left out

- The HTTP HEAD and ranged GET requests, `downChunk`, `os.CreateTemp`, the progress bar and the channel feeding it are left out. Their outcomes are parameters, or they are I/O.
- The concurrent download pool (`conc/pool`, first-error cancellation) is not modelled. The merge starts from the list of chunk files the pool returned.
- `xxhash3.HashString` is a parameter of `MakeFilename`. `os.CreateTemp`'s random suffix is not modelled. `MakeFilename` is not linked to `ChunkedFile.name`: the merge assumes the chunk files have distinct names and that none of them is named like the destination (`MergeFrame`, `DistinctNames`), and `MakeFilenameInjective` only shows the pattern itself does not collide.
- `url.Parse` is not modelled: `GetNameFromURL` and `ResolveName` receive its outcome. The error message text is not modelled either.
- `os.Open` failing inside the merge loop is not modelled. The Go code would then call `Name` on a nil file and panic. The model requires every chunk file to exist (`MergeFrame`).
- The destination file and the temporary chunk files share one map from name to bytes. Directories and permissions are not modelled.
- Downloader.FileSystem.Merge: the error of `os.Remove` (util/downloader/downloader.go:120) is ignored by the code. The model assumes every removal succeeds, and the cleanup claims of `MergeCompletes` and `MergeStopsAt` rest on that.
- Downloader.SortByIndex: `sort.Slice`'s algorithm (pattern-defeating quicksort) is replaced by an insertion sort with the same contract. The contract is a sorted permutation, the part callers rely on.
- Downloader.CeilDiv: `math.Ceil` on `float64` is modelled as an exact integer ceiling. Above 2^53 bytes the float division can round, and the model does not follow that.
- Downloader.Chunked: Go's 64-bit `int` overflow is not modelled, and neither is the panic of `make` on an enormous explicit count. Lengths and counts are unbounded integers.
- Retry of failed chunks, resumable downloads, `WithProgress`, `Download` and the command-line tool (`cmd/down`) are left out. They are not part of the modelled core.
- `DefaultChunkNum` and `MaxChunkNum` are declared but not used by the modelled code, so they are left out.
- `Ptr` and `CloseIgnore` in fns/fns.go are one-line pointer and close helpers, so they are left out.
- Fns.SelectRandom: requires `n >= 0`. A negative n always fails the `len(s) <= n` test, and then Go's `make([]T, n)` panics. The panic is not modelled.
- Fns.SelectRandomAsWritten: requires `n >= 0` for the same reason.
- Fns.Filter, Fns.FilterParam and Fns.Unique return `[]` where Go returns a nil slice. Go treats the two alike for length, ranging and appending.
- The callbacks `f` of the fns helpers are pure, total Dafny functions. Go callbacks that panic or have side effects are not modelled.
- TestToMap (which calls a `ToMap` that no longer exists), TestAny, TestAll and the channel test in fns_test.go are not restated. Any and All are methods, and their if-and-only-if contracts cover those cases.
- The downloader tests depend on live servers. Only the lengths they report are used.

## Findings

| source | as written | input that shows it | evidently intended | confidence | as-written member | corrected member |
|---|---|---|---|---|---|---|
| fns/fns.go:67 | `s = append(s[:idx], s[idx+1:]...)` writes into the backing array the caller's slice shares, shifting its tail left. The caller's slice is rearranged and elements get duplicated | `ss := ["a","b","c","bc"]` reused across calls as in TestSelectRandom. A call with picks 0, 0 leaves `ss == ["c","bc","bc","bc"]`, and a later call with picks 1, 1 returns `["bc","bc"]` | Select n distinct positions of s without touching the caller's slice, e.g. by drawing from a copy | not executed | Fns.SelectRandomAsWritten, Fns.SelectRandomClobbersCallerSlice | Fns.SelectRandom |
