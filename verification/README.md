# roundtrip in Dafny

`roundtrip` reads a CSV file. It takes the value in one column of every row, and checks that DNS agrees with itself in both directions:

- An IP address is reverse-resolved to names, and those names are forward-resolved again.
- A hostname is forward-resolved to addresses, and those addresses are reverse-resolved again.

Each resolved row gets three extra columns: the forward result, the reverse result, and `yes` or `no` for whether the value came back. Rows whose value is neither an address nor a hostname are discarded.

This project models the logic of `roundtrip.go`, without its terminal and file I/O:

- `handleIP` and `handleName` (module `Roundtrip`, file `resolve.dfy`). These are methods over an abstract resolver. Each has an `array<string>` that is sorted and compacted in place, a second-hop loop that fills a set, and a sorted copy of the set's keys. `handleIP` normalises its names before sorting them. `handleName` does not normalise its addresses. It normalises the queried name and every name the second hop finds instead.
- The driver `process` (module `Driver`, file `process.dfy`):
  - the row-width check;
  - the choice of the input column, including the scan that keeps overwriting its answer;
  - the naming of the three derived columns, including the `spin++` search for a free suffix;
  - the hostname grammar, as a predicate;
  - the loop that classifies each row and resolves or discards it.
- The parts of Go's standard library the logic depends on, each stated as a specification:
  - `strings` and `strconv` (module `Text`);
  - a total order on strings and its sorted arrangements (module `StringOrder`);
  - `slices.Sort` and `slices.Compact` on an array (module `Slices`).
- An end-to-end example, and a few worked cases of classification and renaming (module `Examples`). The example file has the header `id,host` and the rows `1,example.com`, `2,192.0.2.5` and `3,bad host`. It is run against a resolver in which example.com and 192.0.2.5 point at each other.

DNS is abstract:

- A `Resolver` is a pair of total functions. `lookupAddr` stands for `net.LookupAddr` and `lookupHost` stands for `net.LookupHost`. Each returns `Found(strings)` or `Failed(message)`.
- `net.ParseIP` followed by `String()` is a parameter `parseIP: string -> Option<string>`. It returns the canonical text of an address, or `None`.

`slices.Compact` is called at roundtrip.go:189 and roundtrip.go:216, but its returned length is thrown away. The slice therefore keeps its full length.

- Its prefix is the compacted sequence.
- Its tail is cleared to `""` by Go 1.22 and later. Earlier Go versions leave the old values there.
- `IsCompaction` admits both. The specifications `IPRun` and `NameRun` are stated over whatever slice the handler is left with. That slice is a ghost out-parameter of `HandleIP` and `HandleName`.
- As a result, the reverse field of `handleIP` and the forward field of `handleName` are sorted before compaction, but in general neither sorted nor free of duplicates afterwards. Before Go 1.22, `[a, a, a, b]` may become `[a, b, a, b]` (`CompactionKeepsStaleTail`). From Go 1.22 on, `[a, a, b]` becomes `[a, b, ""]` (`CompactionClearsTail`). Two names with one normal form show the same thing in `handleIP` (`IPDuplicateKept`).
- The other field of each handler is built from map keys, so it is strictly ascending (`IPFields`, `NameFields`).
- On Go 1.22 and later, the `""` left in the tail is looked up in the second hop like any other entry. Go's resolver rejects an empty host or address, so in practice any duplicate after normalisation makes `handleIP` return `(ERROR, "", no)` and `handleName` return `("", ERROR, no)`. The abstract resolver admits this outcome, since it may answer `""` either way, and nothing proved here depends on how it answers.

Two facts about the code are easy to get wrong:

- Only the lists built from map keys are free of duplicates. The compacted slices are not, as explained above.
- An address such as `192.0.2.1` matches the hostname grammar, because all-digit labels are allowed. It is classified as an address only because the `net.ParseIP` test comes first (`DottedQuadMatchesGrammar`, `DottedQuadIsAddress`).

## Model

| member | source | states |
|---|---|---|
| Text.TrimSpace | roundtrip.go:118 | the trimmed cell has no white space at either end, and a cell without white space is left as it is |
| Text.TrimSpaceRemovesEdges | roundtrip.go:118 | the trimmed cell is a slice of the cell with only white space before and after it |
| Text.TrimSpaceIdempotent | roundtrip.go:118 | trimming an already trimmed cell changes nothing |
| Text.JoinSplit | roundtrip.go:110 | splitting on a character and joining again on it gives the string back |
| Text.SplitJoin | roundtrip.go:110 | joining separator-free pieces and splitting again gives the pieces back |
| Text.Atoi | roundtrip.go:74 | `strconv.Atoi` on a selector: an accepted selector is not empty and its value lies in the `int64` range |
| Text.AtoiItoa | roundtrip.go:74 | `strconv.Atoi` reads back every decimal numeral of a natural number up to the `int64` maximum |
| Text.AtoiRejectsNonDigit | roundtrip.go:74-77 | a selector with a non-digit after its first character is not a number, so it is matched against the header names |
| Text.ItoaInjective | roundtrip.go:99 | different suffix numbers print differently |
| StringOrder.LessEqAntisymmetric | roundtrip.go:188 | the order `slices.Sort` uses on strings is antisymmetric |
| StringOrder.LessEqTransitive | roundtrip.go:188 | the order is transitive |
| StringOrder.LessEqTotal | roundtrip.go:188 | the order is total |
| StringOrder.Ordered | roundtrip.go:201-205 | the ordered listing of a set of keys is strictly ascending and holds exactly the set's strings |
| StringOrder.SortSeq | roundtrip.go:188 | the specification of `slices.Sort`: a sorted permutation of the input |
| StringOrder.SortedUnique | roundtrip.go:188 | two sorted permutations of the same strings are equal, so the sort's result is determined |
| StringOrder.StrictlySortedIsOrdered | roundtrip.go:201-205 | a strictly ascending sequence holding exactly the strings of a set is that set's ordered listing |
| StringOrder.SortedDistinctIsStrict | roundtrip.go:188-189 | sorting strings that occur once each gives a strictly ascending sequence |
| Slices.SortInPlace | roundtrip.go:188 | after the in-place sort the array is sorted and holds the same strings (multiset) |
| Slices.IsCompaction | roundtrip.go:189 | what `slices.Compact` leaves in a slice whose result is discarded: the same length, the deduplicated sequence as prefix, and each tail cell either `""` (Go 1.22 on) or its old value (earlier) |
| Slices.Compact | roundtrip.go:189 | the returned length is that of the deduplicated sequence; the array's prefix is the deduplicated sequence and every tail cell is "" or its old value |
| Slices.DedupElements | roundtrip.go:189 | compaction keeps exactly the strings that were there |
| Slices.DedupOfSorted | roundtrip.go:188-189 | compacting a sorted sequence gives a strictly ascending one |
| Slices.DedupIdentity | roundtrip.go:189 | a sequence without adjacent duplicates is not changed by compaction |
| Slices.CompactionElements | roundtrip.go:189 | every cell after compaction is "" or one of the original strings |
| Slices.CompactionCovers | roundtrip.go:189 | every string of the sorted slice is still in the compacted prefix |
| Slices.CompactionKeepsStaleTail | roundtrip.go:188-189 | with the tail kept (before Go 1.22), the sorted `[a, a, a, b]` may compact to `[a, b, a, b]`, which is neither sorted nor free of duplicates |
| Slices.CompactionClearsTail | roundtrip.go:188-189 | with the tail cleared (Go 1.22 on), the sorted `[a, a, b]` compacts to `[a, b, ""]`, which is not sorted |
| Slices.CompactionOfStrict | roundtrip.go:188-189 | compacting a strictly ascending slice leaves it as it is, whatever the Go version |
| Roundtrip.Normalize | roundtrip.go:186 | the normal form has no upper-case letter, and it is the lower-cased name with exactly one trailing dot removed if there was one |
| Roundtrip.NormalizeAll | roundtrip.go:185-187 | every name of the slice is replaced by its normal form, and the length is kept |
| Roundtrip.Union | roundtrip.go:190-199 | the set the second hop fills: every string found by the lookup of some entry, accumulated entry by entry |
| Roundtrip.FirstFailure | roundtrip.go:191-195 | the message of the first entry whose lookup fails, if there is one; the loop returns at that entry |
| Roundtrip.UnionMembership | roundtrip.go:190-199 | a string is in the collected set exactly when some lookup of the loop found it |
| Roundtrip.FirstFailureIsFirst | roundtrip.go:191-195 | the reported failure belongs to a key whose predecessors all succeeded, and there is none exactly when every lookup succeeds |
| Roundtrip.FirstFailurePrefix | roundtrip.go:191-195 | a failure among the first keys is the failure of the whole loop |
| Roundtrip.FirstFailureAt | roundtrip.go:191-195 | the failure at index i, after successes only, is the one reported |
| Roundtrip.FirstFailureNormalized | roundtrip.go:218-225 | normalising the found names does not change whether or where a reverse lookup fails |
| Roundtrip.Hop | roundtrip.go:190-199 | the second-hop loop returns the first failure's message, or else the set of everything found |
| Roundtrip.SortedKeys | roundtrip.go:201-205 | copying a map's keys into a slice and sorting it gives the ordered listing of the key set, whatever the iteration order |
| Roundtrip.OrderedUnion | roundtrip.go:201-205 | the sorted keys are strictly ascending and hold exactly the strings some lookup found |
| Roundtrip.NormalizeInPlace | roundtrip.go:185-187 | every name of the slice is replaced in place by its normal form, as `NormalizeAll` states |
| Roundtrip.HandleIP | roundtrip.go:179-207 | the result satisfies `IPRun`: ("", ERROR, no) when the reverse lookup fails; otherwise, over the compacted normalised names, (ERROR, "", no) at the first failed forward lookup, or the sorted union, the joined names and membership of `ip` |
| Roundtrip.IPVerdict | roundtrip.go:190-200 | `handleIP` says yes exactly when every lookup succeeds and `ip` is among the addresses of one of the names |
| Roundtrip.IPFields | roundtrip.go:190-206 | on success the forward field joins a strictly ascending list of exactly the addresses found, and the reverse field joins the names |
| Roundtrip.IPErrors | roundtrip.go:191-195 | the first failing forward lookup gives (ERROR with its message, "", no), with nothing aggregated |
| Roundtrip.IPNamesLookedUp | roundtrip.go:185-192 | every name looked up is a normalised reverse name, or the "" left in the compacted tail |
| Roundtrip.IPNamesCovered | roundtrip.go:185-191 | every reverse name, once normalised, is among the names looked up forward |
| Roundtrip.IPRunUnique | roundtrip.go:188-189 | when the normalised reverse names are distinct, `handleIP` has exactly one outcome |
| Roundtrip.IPDuplicateKept | roundtrip.go:185-189 | two reverse names with the same normal form are not merged: the slice becomes [n, ""] or [n, n] |
| Roundtrip.PairCompaction | roundtrip.go:189 | a compacted pair of equal strings is [n, ""] or [n, n] |
| Roundtrip.HandleName | roundtrip.go:209-234 | the result satisfies `NameRun`: (ERROR, "", no) when the forward lookup of the normalised name fails; otherwise, over the compacted addresses, ("", ERROR, no) at the first failed reverse lookup, or the joined addresses, the sorted normalised hostnames and membership of the normalised name |
| Roundtrip.NameVerdict | roundtrip.go:210-227 | `handleName` says yes exactly when every lookup succeeds and some name found for one of the addresses normalises to the normalised query |
| Roundtrip.NormalizedUnionMembership | roundtrip.go:217-226 | a hostname is collected exactly when it is the normal form of a name some reverse lookup found |
| Roundtrip.NameFields | roundtrip.go:215-233 | on success the forward field joins the addresses, and the reverse field joins a strictly ascending list of exactly the normalised names found |
| Roundtrip.NameErrors | roundtrip.go:218-222 | the first failing reverse lookup gives ("", ERROR with its message, no) |
| Roundtrip.NameAddrsLookedUp | roundtrip.go:215-219 | every address reverse-resolved was found for the name, or is the "" left in the compacted tail |
| Roundtrip.NameAddrsCovered | roundtrip.go:211-218 | every address found for the name is among the addresses reverse-resolved |
| Roundtrip.NameRunUnique | roundtrip.go:215-216 | when the forward lookup gives distinct addresses, `handleName` has exactly one outcome |
| Driver.CheckWidths | roundtrip.go:68-72 | the result is none exactly when every row is as wide as the header; otherwise it is the first row that is not |
| Driver.LastIndexOf | roundtrip.go:78-82 | a found index holds the selector |
| Driver.LastIndexOfIsLast | roundtrip.go:78-82 | nothing is found exactly when the selector is absent, and no later header equals it |
| Driver.SelectColumn | roundtrip.go:73-89 | the selection loop, which never stops early, computes `SelectedColumn` |
| Driver.SelectedColumnMeaning | roundtrip.go:73-89 | a number n selects index n-1 exactly when 1 <= n <= width and is fatal otherwise; a non-number selects the last equal header and is fatal when there is none |
| Driver.ColumnZeroRejected | roundtrip.go:74-86 | selector "0" becomes column -1 and is fatal |
| Driver.FreshFor | roundtrip.go:94-102 | the name a derived column gets against the header so far: the base if it is free, else the base with the least suffix `_n`, n >= 1, that is free |
| Driver.Renamed | roundtrip.go:92-103 | the output header is the input header followed by the three derived names, each chosen against the header built so far |
| Driver.SuffixedInjective | roundtrip.go:99 | different suffix numbers give different names |
| Driver.SuffixBound | roundtrip.go:98-101 | the search for a free suffix ends within the header's length |
| Driver.RenameColumns | roundtrip.go:92-103 | the new header is the old one plus three names, each the base if free, else base_n with the least free n >= 1 |
| Driver.RenamedFresh | roundtrip.go:92-103 | each derived name differs from every column before it |
| Driver.FreshForUnique | roundtrip.go:93-102 | the name chosen for a base is determined by the header so far |
| Driver.RenamedUnique | roundtrip.go:92-103 | the new header is determined by the old one |
| Driver.IsHostname | roundtrip.go:110 | the hostname pattern as a predicate: after dropping one optional trailing dot, the cell splits on dots into two or more labels of 1 to 63 characters from `[a-zA-Z0-9_-]` |
| Driver.HostnameFromLabels | roundtrip.go:110 | two or more labels joined by dots match the grammar, with or without a trailing dot |
| Driver.HostnameLabels | roundtrip.go:110 | every match is two or more labels joined by dots, perhaps with one trailing dot |
| Driver.HostnameCharacters | roundtrip.go:110 | a match contains only label characters and dots |
| Driver.Classify | roundtrip.go:118-131 | the cell is trimmed first; it is an address exactly when `parseIP` accepts the trimmed cell, whatever the grammar says, and then carries the canonical text; otherwise it is a hostname, the trimmed cell itself, exactly when the trimmed cell matches the grammar, and else it is discarded |
| Driver.ClassifyIgnoresEdgeSpace | roundtrip.go:118 | a cell and its trimmed form are classified alike |
| Driver.ClassifyPadded | roundtrip.go:118 | a white-space character put in front of a cell does not change its classification |
| Driver.HostnameHasNoSpace | roundtrip.go:110-127 | a cell resolved by name contains no white space at all |
| Driver.Kept | roundtrip.go:117-131 | the rows the loop resolves, in input order: those whose selected cell is not classified invalid |
| Driver.Discarded | roundtrip.go:117-131 | the rows the loop appends to the discarded rows, in input order: those whose selected cell is classified invalid |
| Driver.KeptDiscardedPartition | roundtrip.go:117-131 | every row is either kept or discarded, and no row is lost (multiset) |
| Driver.KeptAreResolvable | roundtrip.go:124-127 | every kept row has an address or a hostname in its selected cell |
| Driver.DiscardedAreInvalid | roundtrip.go:128-130 | every discarded row has neither an address nor a hostname in its selected cell |
| Driver.ResolveCell | roundtrip.go:118-137 | a cell is resolved exactly when it is an address or a hostname, and its three fields are a possible outcome of the matching handler with "yes"/"no" for the verdict |
| Driver.ResolveRows | roundtrip.go:117-139 | the discarded rows are those that classify as invalid, and the processed rows are, in input order, each kept record followed by its three fields |
| Driver.Process | roundtrip.go:65-139 | no header, then the first row of the wrong width, then a bad selector are fatal, in that order; otherwise the result is the renamed header, the resolved rows and the discarded rows |
| Examples.DottedQuadMatchesGrammar | roundtrip.go:110 | 192.0.2.1 matches the hostname grammar |
| Examples.DottedQuadIsAddress | roundtrip.go:118-127 | it is still classified as an address, since the IP test comes first |
| Examples.MalformedIsDiscarded | roundtrip.go:118-130 | the cell `not a host!`, which `parseIP` rejects, is discarded |
| Examples.PaddedNameKind | roundtrip.go:118-127 | the cell ` example.com` is trimmed and resolved by name: white space at the edges does not make a cell malformed |
| Examples.InnerSpaceNotHostname | roundtrip.go:110 | a cell with a space inside never matches the grammar |
| Examples.ExampleComRun | roundtrip.go:209-234 | resolving example.com in the example gives ("192.0.2.5", "example.com", yes) |
| Examples.AddressRun | roundtrip.go:179-207 | resolving 192.0.2.5 in the example gives ("192.0.2.5", "example.com", yes) |
| Examples.ScenarioPartition | roundtrip.go:117-131 | of the example's three rows the first two are kept and "bad host" is discarded |
| Examples.Scenario | roundtrip.go:65-139 | the example file gives the five-column header, the two resolved rows and the one discarded row |
| Examples.FreshForStartsWithBase | roundtrip.go:98-102 | a derived name always starts with its base |
| Examples.VerdictColumnRenamed | roundtrip.go:92-103 | a header that already has `roundtrip_ok` but not `roundtrip_ok_1` gets `roundtrip_ok_1` |

## Left out

- `main`: flag parsing, version printing and reading the CSV file are command-line plumbing. The input column selector is a parameter of `Process`.
- CSV writing, the output and discard files, the progress bar and the `Success`/`Warn` messages are output only. `Process` returns the header, the resolved rows and the discarded rows instead of writing them.
- helpers.go is not part of this model. It opens files, chooses the output, detects the terminal and starts a pager.
- The internals of `net.LookupAddr`, `net.LookupHost` and `net.ParseIP`/`String()` are foreign library code. They are the parameters `Resolver` and `parseIP`. The model assumes lookups are deterministic.
- `ErrorExit` does not return. It is modelled as an `Err(Fatal)` result, and its message text is not modelled beyond the record number and widths.
- Error messages are `"ERROR: "` followed by an abstract message. The text of Go's `error` values is not modelled.
- `Text.LowerChar`: `strings.ToLower` is modelled for ASCII letters only. Other Unicode case mappings are not modelled.
- `StringOrder.LessEq`: Go compares strings by UTF-8 bytes. The model compares code points, which gives the same order for every string of code points, but strings are not modelled as bytes.
- `Driver.Process`: `records[0]` on an empty input panics in Go. The model reports `MissingHeader` instead.
- `Driver.SelectedColumn`: Go's `val - 1` would wrap around for the smallest `int64`. The model's unbounded `v - 1` is fatal in the same case, and the column it reports prints the same.
- `Slices.Compact`: which tail the Go version leaves is deliberately unspecified (`""` or the old value per cell). The contract admits every Go version, and so does everything proved from it.
- The aliasing of `append` on `newColNames` and on `record` is not modelled: `seq` values are used. Go may share the backing array of `colNames` with `newColNames`. It cannot change the output, since `colNames` is only read afterwards.
- The order in which Go iterates a map is not modelled. `SortedKeys` is proved correct for every order.
