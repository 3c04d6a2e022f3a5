# gols: a model of the listing pipeline of an `ls` clone

The program reads one directory, drops hidden entries (unless `-a`) and names
a pattern does not match (`-p`), classifies every remaining entry as regular
file, directory, executable, archive, image or symbolic link, sorts the entries
by name, size (`-s`) or modification time (`-t`), ascending or reversed (`-r`),
keeps the first `-n` of them and prints one line per entry with the icon,
colour and symbol of its type and a marker for hidden entries.

This Dafny project models everything between the directory read and the
terminal output:

- `types.dfy` (ls_clone.go): the six file-type constants, the extension
  constants, the `file` record and the style table `mapStyleByFileType`.
- `classify.dfy`: `setFile` and its predicates `isLink`, `isExec`,
  `isCompress`, `isImage`; the host system is the flag `isWindows`.
- `stablesort.dfy`: `sort.SliceStable` as an in-place insertion sort (by
  adjacent swaps, as Go's own `insertionSort` does) of an array with a
  `less` function, proved equal to the function `Sort`, which is proved to permute its input, to order it, to keep tied elements in their
  earlier order, and to be idempotent; any result with those three
  properties is `Sort`'s.
- `order.dfy`: `mySort`, `orderByName`, `orderBySize`, `orderByTime` and the
  sort-selection code of `main` (which passes run for `-s`/`-t`).
- `listing.dfy`: the loop of `main` that filters and collects the entries
  (with its panics as `Err` results), `getFile`, the record-count clamp, the
  `fs[:n]` slice, `printList`, `setColor`, `markHidden`, and `main` itself as
  the method `Run`, proved equal to the function `Listing`.
- `strings.dfy`, `wrappers.dfy`: the Go `strings` operations used, and
  `Option`/`Result`.

Inputs that the program gets from the operating system are parameters:
`os.ReadDir` is a function from path to an optional list of entries; each
entry carries the answer of `isHidden` and its metadata (absent when
`dir.Info()` fails); the regular expression `"(?i)" + pattern` is either
absent (it does not compile) or a match predicate on names.

Behaviour of the code worth knowing:

- An invalid pattern is only detected when an entry reaches the match
  (main.go:54-58), that is, when the entry is not already dropped as hidden
  (`Listing.InvalidPatternWhenReached`). An empty directory, or one
  whose entries are all hidden without `-a`, lists nothing and does not fail.
- The name pass runs first unless both `-s` and `-t` are given
  (main.go:74-84). Ties of a size or time order therefore come out in the
  order of the name pass (reversed under `-r`), not in read order. With both
  `-s` and `-t` only the time pass runs, on read order
  (`Order.SortFilesResult`).
- `-r` flips the comparison of every pass that runs (main.go:95-101). Within
  one pass, tied entries keep their earlier order in both directions; for
  distinct keys one pass with `-r` gives the exact mirror of the same pass
  without it (`Order.ReverseMirrors`). With `-s` or `-t` alone, the earlier
  order of the last pass is the name pass's order, itself reversed under
  `-r`. So the `-r` listing mirrors the ascending one unless two entries tie
  on every key whose pass runs: on the last key and, when the name pass runs
  before it, on the lower-cased name. Such entries keep their read order in
  both directions.
- A negative `-n` is not clamped (main.go:86-88) and the slice `fs[:n]`
  panics (`Listing.Limit`, `Listing.ListingLength`).

## Model

| member | source | states |
|---|---|---|
| `GoStrings.HasPrefix` | main.go:209 | definition of `strings.HasPrefix`: the string starts with the prefix; `Classify.IsLinkIff` states what it means for a mode |
| `GoStrings.HasSuffix` | main.go:213-232 | definition of `strings.HasSuffix`: the string ends with the suffix; `Classify.IsExecIff`, `IsCompressIff` and `IsImageIff` state what it means for names |
| `GoStrings.Contains` | main.go:217 | `strings.Contains` holds iff the substring occurs at some position |
| `GoStrings.ToLower` | main.go:116 | lower-casing keeps the length and maps every character on its own |
| `GoStrings.ToUpper` | main.go:209 | upper-casing keeps the length and maps every character on its own |
| `GoStrings.Less` | main.go:113-121 | Go's `<` on strings: lexicographic, a proper prefix first; its order properties are the next three lemmas |
| `GoStrings.LessTransitive` | main.go:113-121 | Go's string `<` is transitive |
| `GoStrings.LessTotal` | main.go:113-121 | any two different strings are ordered by Go's `<` one way or the other |
| `GoStrings.LessAsymmetric` | main.go:113-121 | Go's string `<` never holds both ways |
| `Types.Code` | ls_clone.go:9-16 | each file type's constant is in 0..5 and is that type's position in declaration order |
| `Types.FromCode` | ls_clone.go:9-16 | an integer names a file type iff it is in 0..5, and then that type's constant is the integer |
| `Types.CodesAreIota` | ls_clone.go:9-16 | the six constants are 0..5 in declaration order, regular is 0 (the zero value) and no two types share a code |
| `Types.StyleByFileType` | ls_clone.go:49-56 | the style table keyed by the type constants; `Types.TableKeysAreTheTypeCodes` and the style lemmas state its contents |
| `Types.StyleOf` | ls_clone.go:49-56 | every file type's code is a key of the style table, so the lookup in printList always finds a style |
| `Types.TableKeysAreTheTypeCodes` | ls_clone.go:49-56 | the style table's keys are exactly the six type codes |
| `Types.SymbolOfStyle` | ls_clone.go:50-55 | only the directory style has symbol "/", only the executable style "*", all others are empty |
| `Types.ColorOfStyle` | ls_clone.go:50-55 | only the regular style is uncoloured, and no two styles share a colour |
| `Types.IconOfStyle` | ls_clone.go:50-55 | no two styles share an icon |
| `Classify.IsLink` | main.go:208-210 | definition of isLink; `Classify.IsLinkIff` states it as a condition on the mode |
| `Classify.IsExec` | main.go:212-218 | definition of isExec; `Classify.IsExecIff` states it per host system |
| `Classify.IsCompress` | main.go:220-226 | definition of isCompress; `Classify.IsCompressIff` states it as suffix membership |
| `Classify.IsImage` | main.go:228-232 | definition of isImage; `Classify.IsImageIff` states it as suffix membership |
| `Classify.FirstMatching` | main.go:174-189 | a reference first-match reading of the switch: a type it returns is a candidate whose own test holds, and it returns none only when no candidate's test holds |
| `Classify.FirstMatchingIsFirst` | main.go:174-189 | every candidate before the one FirstMatching returns fails its own test |
| `Classify.SetFile` | main.go:174-189 | exactly one type, by first match: link, then directory, executable, archive, image, else regular; every other field is unchanged |
| `Classify.SetFileIsFirstMatch` | main.go:174-189 | the assigned type is the first of the priority list whose own test holds |
| `Classify.LinkBeatsDirectory` | main.go:176-179 | a symbolic link that reports itself as a directory is still a link |
| `Classify.DirectoryIsNotExecutable` | main.go:178-181 | a directory (not a link) is a directory even though its mode contains 'x' |
| `Classify.IsLinkIff` | main.go:208-210 | isLink holds iff the mode starts with 'L' or 'l' |
| `Classify.IsExecIff` | main.go:212-218 | on Windows isExec iff the name ends with ".exe" (case-sensitive); elsewhere iff the mode contains 'x' |
| `Classify.IsCompressIff` | main.go:220-226 | isCompress iff the name ends with one of .zip, .gz, .tar, .rar, .deb |
| `Classify.IsImageIff` | main.go:228-232 | isImage iff the name ends with one of .png, .jpg, .gif |
| `Classify.SuffixTestsAreCaseSensitive` | main.go:220-232 | "a.tar.gz" is an archive and "a.PNG" is not an image |
| `StableSort.SortPermutes` | main.go:104-110 | sort.SliceStable neither drops nor duplicates an entry |
| `StableSort.SortSorted` | main.go:104-110 | after sort.SliceStable no entry is less than an earlier one |
| `StableSort.SortKeepsTies` | main.go:104-110 | stability: entries tied with any given entry keep their relative order |
| `StableSort.SortedIsFixpoint` | main.go:104-110 | an already ordered slice is left exactly as it is |
| `StableSort.Idempotent` | main.go:104-110 | sorting twice with the same comparator equals sorting once |
| `StableSort.SortedUnique` | main.go:104-110 | two sorted permutations of each other with the same order inside every tie class are equal |
| `StableSort.StableResultIsSort` | main.go:104-110 | any sorted permutation that keeps each tie class in input order, that is, the result of any stable sort, is `Sort`'s result |
| `StableSort.SliceStable` | main.go:104-110 | the in-place insertion sort leaves the array holding `Sort` of its old contents |
| `Order.MySort` | main.go:95-101 | definition of mySort: `i < j`, or `i > j` when reversed; `Order.MySortIsStrictOrder` states its order properties |
| `Order.KeyOf` | main.go:103-131 | the key an order function compares is text of the name's length exactly for the name order, a number for size and time; `Order.SameLowerNameIsTie` and `Order.SameSecondIsTie` state what equal keys mean |
| `Order.LessBy` | main.go:103-131 | the comparator an order function hands to sort.SliceStable; `Order.LessByIsStrictWeakOrder` states that it is a strict weak order tying exactly equal keys |
| `Order.MySortEqualKeys` | main.go:95-101 | mySort is false for equal keys, whether reversed or not |
| `Order.MySortIsStrictOrder` | main.go:95-101 | for a fixed direction mySort is asymmetric and transitive, and two keys are unordered iff equal |
| `Order.LessByIsStrictWeakOrder` | main.go:103-131 | each order function's comparator is a strict weak order, and two entries tie iff their keys are equal |
| `Order.SameSecondIsTie` | main.go:103-111 | modification times in the same whole second tie, whatever their sub-second parts |
| `Order.SameLowerNameIsTie` | main.go:113-121 | names equal after lower-casing tie |
| `StableSort.SortFlippedIsReverse` | main.go:95-101 | when no two elements tie, sorting with the flipped comparator gives the mirror image of the ascending sort |
| `Order.ReverseMirrors` | main.go:95-131 | with no two entries sharing a key, an order function with -r yields exactly the reverse of its result without -r |
| `Order.CaseInsensitiveNameOrder` | main.go:113-121 | "a.txt" is ordered before "B.txt" from either read order |
| `Order.OrderByName` | main.go:113-121 | the slice becomes its stable sort by lower-cased name, flipped by -r |
| `Order.OrderBySize` | main.go:123-131 | the slice becomes its stable sort by size, flipped by -r |
| `Order.OrderByTime` | main.go:103-111 | the slice becomes its stable sort by Unix seconds, flipped by -r |
| `Order.Passes` | main.go:73-84 | the name pass runs unless both -s and -t; the size pass only with -s and not -t; the time pass whenever -t; the last pass is time, else size, else name |
| `Order.PrimaryKey` | main.go:73-84 | the key of the last pass: time iff -t, size iff -s without -t, name iff neither |
| `Order.ApplyPasses` | main.go:73-84 | running the passes one after another keeps the number of entries |
| `Order.SortFiles` | main.go:73-84 | the array ends as the selected passes applied in order to its old contents |
| `Order.ApplyPassesUnfold` | main.go:73-84 | the passes amount to one sort by the last key of the name-sorted entries (read order when only one pass runs) |
| `Order.SortFilesResult` | main.go:73-84 | the result is a permutation, ordered by the last key, with ties in the order of the preceding name pass, or read order with both -s and -t or neither |
| `Listing.GetFile` | main.go:151-172 | getFile fails iff the metadata cannot be read; otherwise it keeps the entry's name, directory and hidden flags, its mode, size, user, group and modification time, and its type is the one setFile assigns to those fields |
| `Listing.Admit` | main.go:47-70 | an entry is kept iff it passes both filters and its metadata is readable; the run aborts on it iff it reaches an invalid pattern or passes the filters without metadata |
| `Listing.Collect` | main.go:46-71 | the loop over the entries, as a function: when it succeeds it collects at most one file per entry |
| `Listing.CollectErrSticks` | main.go:47-71 | once an entry panics, later entries do not change the outcome |
| `Listing.CollectFiles` | main.go:46-71 | the append loop returns the files of the kept entries or the first error, as `Collect` defines |
| `Listing.Survivors` | main.go:47-63 | an entry survives iff it is in the directory and passes the hidden and pattern filters |
| `Listing.CollectResult` | main.go:46-71 | the loop succeeds iff no entry aborts it, and then yields one file per surviving entry, in read order |
| `Listing.CollectErrIsFirstAbort` | main.go:46-71 | a failed loop fails with the error of an entry that all earlier entries let through |
| `Listing.FiltersHold` | main.go:50-62 | without -a no collected file is hidden; with a non-empty pattern every collected name matches it |
| `Listing.NoFilterKeepsAll` | main.go:47-71 | with -a, no pattern and readable metadata every entry is collected, in read order |
| `Listing.InvalidPatternWhenReached` | main.go:54-58 | with an invalid non-empty pattern the loop fails iff some entry is not dropped as hidden, and otherwise lists nothing |
| `Listing.ClampRecords` | main.go:86-88 | a negative count stays as it is; any other count becomes one in 0..len, a count in 1..len is kept, and a non-empty list never gets 0 |
| `Listing.Head` | main.go:134 | `fs[:n]` is the first n files for 0 <= n <= len and fails otherwise |
| `Listing.Limit` | main.go:86-88 | a count of 0 or at least the length shows every file, one in between shows exactly the first n, a negative one fails |
| `Listing.SetColor` | main.go:191-206 | the name is kept; the five switch colours paint it and any other colour leaves it plain |
| `Listing.MarkHidden` | main.go:244-250 | the marker is empty iff the entry is not hidden |
| `Listing.RowOf` | main.go:133-148 | each line shows the entry's mode, user, group, size and modification time, the icon, symbol and colour of its type style, and a hidden marker iff the entry is hidden |
| `Listing.UncoloredIffRegular` | main.go:135-144 | a name is printed uncoloured iff the entry is a regular file |
| `Listing.PrintList` | main.go:133-149 | printList succeeds iff 0 <= n <= len, and then prints exactly one row for each of the first n files, in order |
| `Listing.TargetPath` | main.go:33-37 | the directory read is the first argument when it is non-empty, and "." when it is empty |
| `Listing.Listing` | main.go:20-92 | the whole run as a function: a failed directory read fails with that path, and a listing has at most one row per directory entry |
| `Listing.Run` | main.go:20-92 | main reads, filters, sorts, clamps and prints exactly as the function `Listing` composes those steps |
| `Listing.ListingHiddenMarks` | main.go:46-91 | every printed row is the row of a collected file and carries the hidden marker iff that file is hidden; without -a no printed row carries it |
| `Listing.ListingLength` | main.go:86-91 | after a successful read and loop, the run succeeds iff n >= 0, printing len rows for n = 0 or n > len and n rows otherwise |

## Left out

- Flag parsing (`flag` package) and the positional argument: the flag values are parameters.
- `panic`: each panic is an `Err` result carrying the cause (directory read, invalid pattern, metadata read, slice bounds).
- `os.ReadDir`, `dir.Info()`, `info.Mode().String()`, `fileinfo.GetUserAndGroup`: their results are inputs.
- `isHidden` (`path.Join` and `fileinfo.IsHidden`): its answer is an input flag per entry.
- `regexp.MatchString`: the compiled pattern is an input, either absent (does not compile) or an arbitrary match predicate; regular-expression semantics and case-insensitive matching are not modelled.
- `runtime.GOOS` and the constant `Windows`: replaced by the flag `isWindows`.
- Terminal output: `fmt.Printf` formatting and field widths, `time.Format`, and the colour helpers (`blue`, `green`, `red`, `magenta`, `cyan`, `yellow`, which are not part of this model). A printed line is the record of its fields; a coloured string is the string with its colour.
- The style table stores colours as strings while `setColor` switches on `color.Attribute`; both are the same abstract colour here.
- Time zones and sub-second precision: a modification time is whole Unix seconds plus an uncompared remainder.
- GoStrings.ToLower: maps only the ASCII letters; Go's `strings.ToLower` also maps other Unicode letters, so names with non-ASCII letters that differ only in case are not tied in this model, and names with non-ASCII capitals can be ordered differently: Go lower-cases "Éa" to "éa", which sorts after "äb", while the model keeps 'É' (U+00C9), which sorts before 'ä' (U+00E4).
- GoStrings.ToUpper: maps only the ASCII letters; for `isLink`, which only looks at the first upper-cased character, the outcome is the same because only 'l' and 'L' upper-case to 'L'.
- GoStrings.Less: compares characters (code points) where Go compares UTF-8 bytes; the two orders agree on valid UTF-8, and names that are not valid UTF-8 are not modelled.
- `sort.SliceStable` is modelled as insertion sort, not Go's block insertion sort with in-place merging. A stable sort's result is fully determined by its comparator (`StableSort.StableResultIsSort`), so the final order is the same; the intermediate steps and their cost are not modelled.
- `Listing.Head`: Go's `fs[:n]` with len(fs) < n <= cap(fs) would succeed, while the model (and so `Listing.PrintList`) fails for every n above the length; the clamp makes that case unreachable from `main`.
